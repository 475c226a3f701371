/** Which expressions may be sent to a remote server (deparse.cpp): the walk over an expression tree that
    traces every collation in use back to a column of the foreign relation. */
module Collation {
  import opened Options

  type Oid = nat

  const INVALID_OID: Oid := 0
  const DEFAULT_COLLATION_OID: Oid := 100
  const SELF_ITEM_POINTER := -1
  const OBJECT_ID := -2

  datatype Catalog = Procedure | Operator | Type

  /** What the walk is told: the relation ids of the foreign scan and what may be shipped there. */
  datatype Env = Env(relids: set<nat>, shippable: (Oid, Catalog) -> bool)

  /** A sort clause of an aggregate: its operator, and whether that is the type's own < or >. */
  datatype SortClause = SortClause(op: Oid, byDefault: bool)

  /** Expression nodes; typ is the type that exprType reports. */
  datatype Expr =
    | Empty
    | Var(varno: nat, levelsUp: nat, attno: int, coll: Oid, typ: Oid)
    | Const(coll: Oid, typ: Oid)
    | Param(isExtern: bool, coll: Oid, typ: Oid)
    | ArrayRef(isAssignment: bool, upper: Expr, lower: Expr, arg: Expr, coll: Oid, typ: Oid)
    | Func(id: Oid, arg: Expr, inputColl: Oid, coll: Oid, typ: Oid)
    | Op(id: Oid, arg: Expr, inputColl: Oid, coll: Oid, typ: Oid)
    | ScalarArrayOp(id: Oid, arg: Expr, inputColl: Oid, typ: Oid)
    | Relabel(arg: Expr, coll: Oid, typ: Oid)
    | Bool(arg: Expr, typ: Oid)
    | NullTest(arg: Expr, typ: Oid)
    | Array(arg: Expr, coll: Oid, typ: Oid)
    | List(items: seq<Expr>)
    | Aggref(id: Oid, items: seq<Expr>, order: seq<SortClause>, inputColl: Oid, coll: Oid, typ: Oid)
    | OtherNode

  datatype State = NoCollation | Safe | Unsafe

  /** foreign_loc_cxt. */
  datatype Local = Local(coll: Oid, state: State)

  const NOTHING := Local(INVALID_OID, NoCollation)

  predicate Foreign(env: Env, e: Expr)
    requires e.Var?
  {
    e.varno in env.relids && e.levelsUp == 0
  }

  // ---------------------------------------------------------------------------------------------
  // The walk
  // ---------------------------------------------------------------------------------------------

  /** A collation that no column of the foreign relation brought in. */
  function FromOutside(coll: Oid): Local {
    Local(coll, if coll == INVALID_OID || coll == DEFAULT_COLLATION_OID then NoCollation else Unsafe)
  }

  /** The result collation of a node over what its inputs brought in. */
  function Result(coll: Oid, inner: Local): Local {
    Local(coll,
          if coll == INVALID_OID then NoCollation
          else if inner.state == Safe && coll == inner.coll then Safe
          else if coll == DEFAULT_COLLATION_OID then NoCollation
          else Unsafe)
  }

  /** A node that compares its inputs needs their collation to come from a foreign column. */
  predicate InputOk(inputColl: Oid, inner: Local) {
    inputColl == INVALID_OID || (inner.state == Safe && inputColl == inner.coll)
  }

  function Rank(s: State): int {
    match s case NoCollation => 0 case Safe => 1 case Unsafe => 2
  }

  /** Merging a node's collation into its parent's. */
  function Merge(outer: Local, own: Local): Local {
    if Rank(own.state) > Rank(outer.state) then own
    else if own.state == outer.state == Safe && own.coll != outer.coll then
      if outer.coll == DEFAULT_COLLATION_OID then outer.(coll := own.coll)
      else if own.coll != DEFAULT_COLLATION_OID then outer.(state := Unsafe)
      else outer
    else outer
  }

  /** gcforeign_expr_walker: None when the expression is refused, otherwise the parent's new state. */
  function Walk(env: Env, e: Expr, outer: Local): Option<Local>
    decreases e, 1
  {
    if e.Empty? then Some(outer) else
      match Own(env, e)
      case None => None
      case Some(own) => Some(Merge(outer, own))
  }

  function WalkAll(env: Env, items: seq<Expr>, inner: Local): Option<Local>
    decreases items
  {
    if items == [] then Some(inner) else
      match Walk(env, items[0], inner)
      case None => None
      case Some(next) => WalkAll(env, items[1..], next)
  }

  /** The switch on the node and the check of its type: the collation and state the node itself has. */
  function Own(env: Env, e: Expr): Option<Local>
    requires !e.Empty?
    decreases e, 0
  {
    match e
    case Var(_, _, attno, coll, typ) =>
      if Foreign(env, e) then
        if attno < 0 && attno != SELF_ITEM_POINTER && attno != OBJECT_ID then None
        else Typed(env, typ, Local(coll, if coll != INVALID_OID then Safe else NoCollation))
      else Typed(env, typ, FromOutside(coll))
    case Const(coll, typ) => Typed(env, typ, FromOutside(coll))
    case Param(isExtern, coll, typ) => if !isExtern then None else Typed(env, typ, FromOutside(coll))
    case ArrayRef(isAssignment, upper, lower, arg, coll, typ) =>
      if isAssignment then None else
        (match Walk(env, upper, NOTHING)
         case None => None
         case Some(i1) =>
           match Walk(env, lower, i1)
           case None => None
           case Some(i2) =>
             match Walk(env, arg, i2)
             case None => None
             case Some(inner) => Typed(env, typ, Result(coll, inner)))
    case Func(id, arg, inputColl, coll, typ) =>
      if !env.shippable(id, Procedure) then None else
        (match Walk(env, arg, NOTHING)
         case None => None
         case Some(inner) => if !InputOk(inputColl, inner) then None else Typed(env, typ, Result(coll, inner)))
    case Op(id, arg, inputColl, coll, typ) =>
      if !env.shippable(id, Operator) then None else
        (match Walk(env, arg, NOTHING)
         case None => None
         case Some(inner) => if !InputOk(inputColl, inner) then None else Typed(env, typ, Result(coll, inner)))
    case ScalarArrayOp(id, arg, inputColl, typ) =>
      if !env.shippable(id, Operator) then None else
        (match Walk(env, arg, NOTHING)
         case None => None
         case Some(inner) => if !InputOk(inputColl, inner) then None else Typed(env, typ, NOTHING))
    case Relabel(arg, coll, typ) =>
      (match Walk(env, arg, NOTHING)
       case None => None
       case Some(inner) => Typed(env, typ, Result(coll, inner)))
    case Bool(arg, typ) => if Walk(env, arg, NOTHING).None? then None else Typed(env, typ, NOTHING)
    case NullTest(arg, typ) => if Walk(env, arg, NOTHING).None? then None else Typed(env, typ, NOTHING)
    case Array(arg, coll, typ) =>
      (match Walk(env, arg, NOTHING)
       case None => None
       case Some(inner) => Typed(env, typ, Result(coll, inner)))
    case List(items) => WalkAll(env, items, NOTHING)
    case Aggref(id, items, order, inputColl, coll, typ) =>
      if !env.shippable(id, Procedure) then None else
        (match WalkAll(env, items, NOTHING)
         case None => None
         case Some(inner) =>
           if exists i :: 0 <= i < |order| && !order[i].byDefault && !env.shippable(order[i].op, Operator) then None
           else if !InputOk(inputColl, inner) then None else Typed(env, typ, Result(coll, inner)))
    case OtherNode => None
  }

  function Typed(env: Env, typ: Oid, own: Local): Option<Local> {
    if env.shippable(typ, Type) then Some(own) else None
  }

  /** is_foreign_expr; whether the expression contains mutable functions is decided elsewhere. */
  predicate IsForeignExpr(env: Env, e: Expr, mutableFunctions: bool) {
    match Walk(env, e, NOTHING)
    case None => false
    case Some(top) => top.state != Unsafe && !mutableFunctions
  }

  // ---------------------------------------------------------------------------------------------
  // Every safe collation comes from a foreign column
  // ---------------------------------------------------------------------------------------------

  /** Some foreign column inside e has collation c. */
  predicate HasColumn(env: Env, e: Expr, c: Oid) {
    match e
    case Empty => false
    case Var(_, _, _, coll, _) => Foreign(env, e) && coll == c
    case Const(_, _) => false
    case Param(_, _, _) => false
    case ArrayRef(_, upper, lower, arg, _, _) =>
      HasColumn(env, upper, c) || HasColumn(env, lower, c) || HasColumn(env, arg, c)
    case Func(_, arg, _, _, _) => HasColumn(env, arg, c)
    case Op(_, arg, _, _, _) => HasColumn(env, arg, c)
    case ScalarArrayOp(_, arg, _, _) => HasColumn(env, arg, c)
    case Relabel(arg, _, _) => HasColumn(env, arg, c)
    case Bool(arg, _) => HasColumn(env, arg, c)
    case NullTest(arg, _) => HasColumn(env, arg, c)
    case Array(arg, _, _) => HasColumn(env, arg, c)
    case List(items) => exists i :: 0 <= i < |items| && HasColumn(env, items[i], c)
    case Aggref(_, items, _, _, _, _) => exists i :: 0 <= i < |items| && HasColumn(env, items[i], c)
    case OtherNode => false
  }

  predicate AnyHasColumn(env: Env, items: seq<Expr>, c: Oid) {
    exists i :: 0 <= i < |items| && HasColumn(env, items[i], c)
  }

  /** Whatever is safe after walking e was so before, or comes from a foreign column inside e. */
  lemma {:induction false} SafeFromColumn(env: Env, e: Expr, outer: Local)
    ensures var r := Walk(env, e, outer);
            r.Some? && r.value.state == Safe ==>
              (outer.state == Safe && r.value.coll == outer.coll) || HasColumn(env, e, r.value.coll)
    decreases e, 1
  {
    if !e.Empty? { OwnFromColumn(env, e); }
  }

  lemma {:induction false} OwnFromColumn(env: Env, e: Expr)
    requires !e.Empty?
    ensures Own(env, e).Some? && Own(env, e).value.state == Safe ==> HasColumn(env, e, Own(env, e).value.coll)
    decreases e, 0
  {
    match e
    case ArrayRef(isAssignment, upper, lower, arg, coll, typ) =>
      SafeFromColumn(env, upper, NOTHING);
      var i1 := Walk(env, upper, NOTHING);
      if i1.Some? {
        SafeFromColumn(env, lower, i1.value);
        var i2 := Walk(env, lower, i1.value);
        if i2.Some? { SafeFromColumn(env, arg, i2.value); }
      }
    case Func(_, arg, _, _, _) => SafeFromColumn(env, arg, NOTHING);
    case Op(_, arg, _, _, _) => SafeFromColumn(env, arg, NOTHING);
    case Relabel(arg, _, _) => SafeFromColumn(env, arg, NOTHING);
    case Array(arg, _, _) => SafeFromColumn(env, arg, NOTHING);
    case List(items) => AllFromColumn(env, items, NOTHING);
    case Aggref(_, items, _, _, _, _) => AllFromColumn(env, items, NOTHING);
    case _ =>
  }

  lemma {:induction false} AllFromColumn(env: Env, items: seq<Expr>, inner: Local)
    ensures var r := WalkAll(env, items, inner);
            r.Some? && r.value.state == Safe ==>
              (inner.state == Safe && r.value.coll == inner.coll) || AnyHasColumn(env, items, r.value.coll)
    decreases items
  {
    if items != [] {
      SafeFromColumn(env, items[0], inner);
      var next := Walk(env, items[0], inner);
      if next.Some? {
        AllFromColumn(env, items[1..], next.value);
        var r := WalkAll(env, items[1..], next.value);
        if r.Some? && AnyHasColumn(env, items[1..], r.value.coll) {
          var i :| 0 <= i < |items[1..]| && HasColumn(env, items[1..][i], r.value.coll);
          assert items[1..][i] == items[i + 1];
        }
      }
    }
  }

  /** Every node of e that compares its inputs under a collation has a foreign column with that very
      collation among those inputs. */
  predicate InputsTraced(env: Env, e: Expr) {
    match e
    case ArrayRef(_, upper, lower, arg, _, _) =>
      InputsTraced(env, upper) && InputsTraced(env, lower) && InputsTraced(env, arg)
    case Func(_, arg, c, _, _) => InputsTraced(env, arg) && (c != INVALID_OID ==> HasColumn(env, arg, c))
    case Op(_, arg, c, _, _) => InputsTraced(env, arg) && (c != INVALID_OID ==> HasColumn(env, arg, c))
    case ScalarArrayOp(_, arg, c, _) => InputsTraced(env, arg) && (c != INVALID_OID ==> HasColumn(env, arg, c))
    case Relabel(arg, _, _) => InputsTraced(env, arg)
    case Bool(arg, _) => InputsTraced(env, arg)
    case NullTest(arg, _) => InputsTraced(env, arg)
    case Array(arg, _, _) => InputsTraced(env, arg)
    case List(items) => forall i :: 0 <= i < |items| ==> InputsTraced(env, items[i])
    case Aggref(_, items, _, c, _, _) =>
      && (forall i :: 0 <= i < |items| ==> InputsTraced(env, items[i]))
      && (c != INVALID_OID ==> AnyHasColumn(env, items, c))
    case _ => true
  }

  /** An accepted expression uses no collation that is not a foreign column's. */
  lemma {:induction false} AcceptedIsTraced(env: Env, e: Expr, outer: Local)
    requires Walk(env, e, outer).Some?
    ensures InputsTraced(env, e)
    decreases e, 0
  {
    match e
    case ArrayRef(_, upper, lower, arg, _, _) =>
      var i1 := Walk(env, upper, NOTHING).value;
      AcceptedIsTraced(env, upper, NOTHING);
      AcceptedIsTraced(env, lower, i1);
      AcceptedIsTraced(env, arg, Walk(env, lower, i1).value);
    case Func(_, arg, _, _, _) => AcceptedArg(env, arg);
    case Op(_, arg, _, _, _) => AcceptedArg(env, arg);
    case ScalarArrayOp(_, arg, _, _) => AcceptedArg(env, arg);
    case Relabel(arg, _, _) => AcceptedIsTraced(env, arg, NOTHING);
    case Bool(arg, _) => AcceptedIsTraced(env, arg, NOTHING);
    case NullTest(arg, _) => AcceptedIsTraced(env, arg, NOTHING);
    case Array(arg, _, _) => AcceptedIsTraced(env, arg, NOTHING);
    case List(items) => AcceptedAll(env, items, NOTHING);
    case Aggref(_, items, _, _, _, _) =>
      AcceptedAll(env, items, NOTHING);
      AllFromColumn(env, items, NOTHING);
    case _ =>
  }

  lemma {:induction false} AcceptedArg(env: Env, arg: Expr)
    requires Walk(env, arg, NOTHING).Some?
    ensures InputsTraced(env, arg)
    ensures Walk(env, arg, NOTHING).value.state == Safe ==> HasColumn(env, arg, Walk(env, arg, NOTHING).value.coll)
    decreases arg, 1
  {
    AcceptedIsTraced(env, arg, NOTHING);
    SafeFromColumn(env, arg, NOTHING);
  }

  lemma {:induction false} AcceptedAll(env: Env, items: seq<Expr>, inner: Local)
    requires WalkAll(env, items, inner).Some?
    ensures forall i :: 0 <= i < |items| ==> InputsTraced(env, items[i])
    decreases items
  {
    if items != [] {
      AcceptedIsTraced(env, items[0], inner);
      AcceptedAll(env, items[1..], Walk(env, items[0], inner).value);
      assert forall i :: 1 <= i < |items| ==> items[i] == items[1..][i - 1];
    }
  }

  // ---------------------------------------------------------------------------------------------
  // The merge is a join
  // ---------------------------------------------------------------------------------------------

  /** What later merges and the final verdict can see of a state: nothing, a safe collation, or a
      conflict. A safe default collation lies below every other safe one. */
  datatype Level = Bottom | At(coll: Oid) | Top

  function LevelOf(l: Local): Level {
    match l.state case NoCollation => Bottom case Safe => At(l.coll) case Unsafe => Top
  }

  function Join(a: Level, b: Level): Level {
    if a == Bottom || a == b then b
    else if b == Bottom then a
    else if a == At(DEFAULT_COLLATION_OID) then b
    else if b == At(DEFAULT_COLLATION_OID) then a
    else Top
  }

  lemma MergeIsJoin(outer: Local, own: Local)
    ensures LevelOf(Merge(outer, own)) == Join(LevelOf(outer), LevelOf(own))
  {
  }

  lemma JoinLaws(a: Level, b: Level, c: Level)
    ensures Join(a, a) == a && Join(a, b) == Join(b, a) && Join(Join(a, b), c) == Join(a, Join(b, c))
  {
  }

  predicate ItemOk(env: Env, e: Expr) {
    e.Empty? || Own(env, e).Some?
  }

  function ItemLevel(env: Env, e: Expr): Level
    requires ItemOk(env, e)
  {
    if e.Empty? then Bottom else LevelOf(Own(env, e).value)
  }

  predicate AllOk(env: Env, items: seq<Expr>) {
    forall i :: 0 <= i < |items| ==> ItemOk(env, items[i])
  }

  /** The join of the levels of all items. */
  function JoinOf(env: Env, items: seq<Expr>): Level
    requires AllOk(env, items)
  {
    if items == [] then Bottom else Join(ItemLevel(env, items[0]), JoinOf(env, items[1..]))
  }

  /** Walking a list accepts exactly if every item is accepted, and ends at the join of their levels. */
  lemma {:induction false} WalkAllIsJoin(env: Env, items: seq<Expr>, inner: Local)
    ensures WalkAll(env, items, inner).Some? <==> AllOk(env, items)
    ensures WalkAll(env, items, inner).Some? ==>
              LevelOf(WalkAll(env, items, inner).value) == Join(LevelOf(inner), JoinOf(env, items))
    decreases items
  {
    if items != [] {
      var next := Walk(env, items[0], inner);
      if next.Some? {
        WalkAllIsJoin(env, items[1..], next.value);
        assert forall i :: 1 <= i < |items| ==> items[i] == items[1..][i - 1];
        if WalkAll(env, items, inner).Some? {
          if !items[0].Empty? { MergeIsJoin(inner, Own(env, items[0]).value); }
          JoinLaws(LevelOf(inner), ItemLevel(env, items[0]), JoinOf(env, items[1..]));
        }
      }
    }
  }

  /** Any item may be taken out of a join first. */
  lemma {:induction false} JoinTakeOut(env: Env, items: seq<Expr>, k: nat)
    requires k < |items| && AllOk(env, items)
    ensures AllOk(env, items[..k] + items[k + 1..])
    ensures JoinOf(env, items) == Join(ItemLevel(env, items[k]), JoinOf(env, items[..k] + items[k + 1..]))
    decreases items
  {
    var rest := items[..k] + items[k + 1..];
    if k == 0 {
      assert rest == items[1..];
    } else {
      JoinTakeOut(env, items[1..], k - 1);
      var inner := items[1..][..k - 1] + items[1..][k..];
      assert rest[1..] == inner && rest[0] == items[0] && items[1..][k - 1] == items[k];
      var a, b, c := ItemLevel(env, items[0]), ItemLevel(env, items[k]), JoinOf(env, inner);
      JoinLaws(a, b, c);
      JoinLaws(b, a, c);
    }
  }

  /** Takes the head of s out of a permutation t of s. */
  lemma TakeOutHead(s: seq<Expr>, t: seq<Expr>) returns (k: nat)
    requires s != [] && multiset(s) == multiset(t)
    ensures k < |t| && t[k] == s[0] && multiset(s[1..]) == multiset(t[..k] + t[k + 1..])
  {
    assert s[0] in multiset(s) && s[0] in multiset(t);
    k :| 0 <= k < |t| && t[k] == s[0];
    assert s == [s[0]] + s[1..] && t == t[..k] + [t[k]] + t[k + 1..];
    assert multiset(t[..k] + t[k + 1..]) == multiset(t) - multiset{t[k]};
  }

  lemma {:induction false} JoinPermutes(env: Env, s: seq<Expr>, t: seq<Expr>)
    requires multiset(s) == multiset(t) && AllOk(env, s)
    ensures AllOk(env, t) && JoinOf(env, s) == JoinOf(env, t)
    decreases s
  {
    hide ItemOk;
    hide Join;
    OkPermutes(env, s, t);
    if s == [] {
      assert |multiset(t)| == 0;
    } else {
      var k := TakeOutHead(s, t);
      JoinTakeOut(env, t, k);
      JoinPermutes(env, s[1..], t[..k] + t[k + 1..]);
    }
  }

  lemma OkPermutes(env: Env, s: seq<Expr>, t: seq<Expr>)
    requires multiset(s) == multiset(t) && AllOk(env, s)
    ensures AllOk(env, t)
  {
    hide ItemOk;
    forall i | 0 <= i < |t| ensures ItemOk(env, t[i]) {
      assert t[i] in multiset(t) && t[i] in multiset(s);
      var j :| 0 <= j < |s| && s[j] == t[i];
    }
  }

  /** The order of list items changes neither the verdict, nor the state, nor a safe collation. */
  lemma ListOrderIrrelevant(env: Env, s: seq<Expr>, t: seq<Expr>, inner: Local)
    requires multiset(s) == multiset(t)
    ensures WalkAll(env, s, inner).Some? <==> WalkAll(env, t, inner).Some?
    ensures WalkAll(env, s, inner).Some? ==>
              LevelOf(WalkAll(env, s, inner).value) == LevelOf(WalkAll(env, t, inner).value)
  {
    WalkAllIsJoin(env, s, inner);
    WalkAllIsJoin(env, t, inner);
    if WalkAll(env, s, inner).Some? {
      JoinPermutes(env, s, t);
    } else if WalkAll(env, t, inner).Some? {
      JoinPermutes(env, t, s);
    }
  }

  /** A function, operator or array node over other arguments. */
  function WithArguments(e: Expr, args: Expr): Expr {
    match e
    case Func(id, _, inputColl, coll, typ) => Func(id, args, inputColl, coll, typ)
    case Op(id, _, inputColl, coll, typ) => Op(id, args, inputColl, coll, typ)
    case ScalarArrayOp(id, _, inputColl, typ) => ScalarArrayOp(id, args, inputColl, typ)
    case Bool(_, typ) => Bool(args, typ)
    case Array(_, coll, typ) => Array(args, coll, typ)
    case _ => args
  }

  lemma LevelDecides(a: Local, b: Local)
    requires LevelOf(a) == LevelOf(b)
    ensures forall c :: InputOk(c, a) == InputOk(c, b) && Result(c, a) == Result(c, b)
  {
  }

  /** Such a node sees of its arguments only whether they are accepted and at what level. */
  lemma OwnDependsOnLevel(env: Env, e: Expr, a: Expr, b: Expr)
    requires e.Func? || e.Op? || e.ScalarArrayOp? || e.Bool? || e.Array?
    requires var wa, wb := Walk(env, a, NOTHING), Walk(env, b, NOTHING);
             if wa.Some? then wb.Some? && LevelOf(wa.value) == LevelOf(wb.value) else wb.None?
    ensures Own(env, WithArguments(e, a)) == Own(env, WithArguments(e, b))
  {
    hide Walk;
    hide WalkAll;
    hide InputOk;
    hide Result;
    hide LevelOf;
    hide Typed;
    var wa, wb := Walk(env, a, NOTHING), Walk(env, b, NOTHING);
    if wa.Some? { LevelDecides(wa.value, wb.value); }
    match e
    case Func(_, _, _, _, _) =>
    case Op(_, _, _, _, _) =>
    case ScalarArrayOp(_, _, _, _) =>
    case Bool(_, _) =>
    case Array(_, _, _) =>
  }

  /** So it has the same verdict, collation and state whatever the order of its arguments. */
  lemma ArgumentOrderIrrelevant(env: Env, e: Expr, s: seq<Expr>, t: seq<Expr>)
    requires multiset(s) == multiset(t)
    requires e.Func? || e.Op? || e.ScalarArrayOp? || e.Bool? || e.Array?
    ensures Own(env, WithArguments(e, List(s))) == Own(env, WithArguments(e, List(t)))
  {
    ListOrderIrrelevant(env, s, t, NOTHING);
    assert Own(env, List(s)) == WalkAll(env, s, NOTHING) && Own(env, List(t)) == WalkAll(env, t, NOTHING);
    if WalkAll(env, s, NOTHING).Some? {
      MergeIsJoin(NOTHING, Own(env, List(s)).value);
      MergeIsJoin(NOTHING, Own(env, List(t)).value);
    }
    OwnDependsOnLevel(env, e, List(s), List(t));
  }

  /** What is sent to the remote server: every collation under which inputs are compared is a foreign
      column's, and so is the collation of the result, if it is marked safe. */
  lemma SentIsTraced(env: Env, e: Expr, mutableFunctions: bool)
    requires IsForeignExpr(env, e, mutableFunctions)
    ensures InputsTraced(env, e)
    ensures var top := Walk(env, e, NOTHING).value;
            top.state == NoCollation || (top.state == Safe && HasColumn(env, e, top.coll))
  {
    AcceptedIsTraced(env, e, NOTHING);
    SafeFromColumn(env, e, NOTHING);
  }

  // ---------------------------------------------------------------------------------------------
  // Exactly which expressions are sent
  // ---------------------------------------------------------------------------------------------

  /** Nothing in e is beyond the remote server: functions, aggregates, operators, sort operators other than
      a type's own, and types are all shippable; no array is assigned to; parameters are external; of the
      system columns of the relation only ctid and oid occur; and there are no other nodes. */
  predicate Sendable(env: Env, e: Expr) {
    match e
    case Empty => true
    case Var(varno, levelsUp, attno, _, typ) =>
      env.shippable(typ, Type) && (varno in env.relids && levelsUp == 0 && attno < 0 ==> attno in {-1, -2})
    case Const(_, typ) => env.shippable(typ, Type)
    case Param(isExtern, _, typ) => isExtern && env.shippable(typ, Type)
    case ArrayRef(isAssignment, upper, lower, arg, _, typ) =>
      !isAssignment && Sendable(env, upper) && Sendable(env, lower) && Sendable(env, arg) && env.shippable(typ, Type)
    case Func(id, arg, _, _, typ) => env.shippable(id, Procedure) && Sendable(env, arg) && env.shippable(typ, Type)
    case Op(id, arg, _, _, typ) => env.shippable(id, Operator) && Sendable(env, arg) && env.shippable(typ, Type)
    case ScalarArrayOp(id, arg, _, typ) =>
      env.shippable(id, Operator) && Sendable(env, arg) && env.shippable(typ, Type)
    case Relabel(arg, _, typ) => Sendable(env, arg) && env.shippable(typ, Type)
    case Bool(arg, typ) => Sendable(env, arg) && env.shippable(typ, Type)
    case NullTest(arg, typ) => Sendable(env, arg) && env.shippable(typ, Type)
    case Array(arg, _, typ) => Sendable(env, arg) && env.shippable(typ, Type)
    case List(items) => forall i :: 0 <= i < |items| ==> Sendable(env, items[i])
    case Aggref(id, items, order, _, _, typ) =>
      && env.shippable(id, Procedure) && (forall i :: 0 <= i < |items| ==> Sendable(env, items[i]))
      && (forall i :: 0 <= i < |order| ==> order[i].byDefault || env.shippable(order[i].op, Operator))
      && env.shippable(typ, Type)
    case OtherNode => false
  }

  /** What an expression brings into the collation of its parent: nothing, the collation of a foreign column,
      or a conflict, which includes a collation that no foreign column below has. */
  function Brings(env: Env, e: Expr): Level {
    match e
    case Var(varno, levelsUp, _, coll, _) =>
      if varno in env.relids && levelsUp == 0 then (if coll == 0 then Bottom else At(coll)) else Foreignless(coll)
    case Const(coll, _) => Foreignless(coll)
    case Param(_, coll, _) => Foreignless(coll)
    case ArrayRef(_, upper, lower, arg, coll, _) =>
      Passed(coll, Join(Join(Brings(env, upper), Brings(env, lower)), Brings(env, arg)))
    case Func(_, arg, _, coll, _) => Passed(coll, Brings(env, arg))
    case Op(_, arg, _, coll, _) => Passed(coll, Brings(env, arg))
    case Relabel(arg, coll, _) => Passed(coll, Brings(env, arg))
    case Array(arg, coll, _) => Passed(coll, Brings(env, arg))
    case List(items) => BringAll(env, items)
    case Aggref(_, items, _, _, coll, _) => Passed(coll, BringAll(env, items))
    case _ => Bottom
  }

  function BringAll(env: Env, items: seq<Expr>): Level {
    if items == [] then Bottom else Join(Brings(env, items[0]), BringAll(env, items[1..]))
  }

  /** A collation without a foreign column behind it is harmless only if it is the default. */
  function Foreignless(coll: Oid): Level {
    if coll in {0, 100} then Bottom else Top
  }

  /** A collation that the inputs brought is passed on; any other counts as one from outside. */
  function Passed(coll: Oid, inputs: Level): Level {
    if coll != 0 && inputs == At(coll) then inputs else Foreignless(coll)
  }

  /** Every node that compares its inputs under a collation is brought just that collation by them. */
  predicate Matched(env: Env, e: Expr) {
    match e
    case ArrayRef(_, upper, lower, arg, _, _) => Matched(env, upper) && Matched(env, lower) && Matched(env, arg)
    case Func(_, arg, c, _, _) => Matched(env, arg) && (c == 0 || Brings(env, arg) == At(c))
    case Op(_, arg, c, _, _) => Matched(env, arg) && (c == 0 || Brings(env, arg) == At(c))
    case ScalarArrayOp(_, arg, c, _) => Matched(env, arg) && (c == 0 || Brings(env, arg) == At(c))
    case Relabel(arg, _, _) => Matched(env, arg)
    case Bool(arg, _) => Matched(env, arg)
    case NullTest(arg, _) => Matched(env, arg)
    case Array(arg, _, _) => Matched(env, arg)
    case List(items) => forall i :: 0 <= i < |items| ==> Matched(env, items[i])
    case Aggref(_, items, _, c, _, _) =>
      (forall i :: 0 <= i < |items| ==> Matched(env, items[i])) && (c == 0 || BringAll(env, items) == At(c))
    case _ => true
  }

  /** The walk accepts exactly what can be sent with matching collations, and adds what it brings. */
  lemma {:induction false} WalkIff(env: Env, e: Expr, outer: Local)
    ensures Walk(env, e, outer).Some? <==> Sendable(env, e) && Matched(env, e)
    ensures Walk(env, e, outer).Some? ==> LevelOf(Walk(env, e, outer).value) == Join(LevelOf(outer), Brings(env, e))
    decreases e, 1
  {
    if !e.Empty? {
      OwnIff(env, e);
      hide Own;
      hide Sendable;
      hide Matched;
      hide Brings;
      if Own(env, e).Some? { MergeIsJoin(outer, Own(env, e).value); }
    }
  }

  /** The same for what a node has of its own. */
  lemma {:induction false} OwnIff(env: Env, e: Expr)
    requires !e.Empty?
    ensures Own(env, e).Some? <==> Sendable(env, e) && Matched(env, e)
    ensures Own(env, e).Some? ==> LevelOf(Own(env, e).value) == Brings(env, e)
    decreases e, 0, 1
  {
    hide Walk;
    hide WalkAll;
    hide InputOk;
    hide Result;
    hide LevelOf;
    hide Join;
    hide Passed;
    hide Foreign;
    hide FromOutside;
    hide Foreignless;
    match e
    case Var(_, _, _, _, _) => LeafIff(env, e);
    case Const(_, _) => LeafIff(env, e);
    case Param(_, _, _) => LeafIff(env, e);
    case ArrayRef(_, _, _, _, _, _) => ArrayRefIff(env, e);
    case Func(_, arg, _, _, _) => ArgIff(env, arg);
    case Op(_, arg, _, _, _) => ArgIff(env, arg);
    case ScalarArrayOp(_, arg, _, _) => ArgIff(env, arg);
    case Relabel(arg, _, _) => ArgIff(env, arg);
    case Bool(arg, _) => ArgIff(env, arg);
    case NullTest(arg, _) => ArgIff(env, arg);
    case Array(arg, _, _) => ArgIff(env, arg);
    case List(items) => ArgsIff(env, items);
    case Aggref(_, items, _, _, _, _) => ArgsIff(env, items);
    case OtherNode =>
  }

  lemma LeafIff(env: Env, e: Expr)
    requires e.Var? || e.Const? || e.Param?
    ensures Own(env, e).Some? <==> Sendable(env, e) && Matched(env, e)
    ensures Own(env, e).Some? ==> LevelOf(Own(env, e).value) == Brings(env, e)
  {
  }

  /** What inputs at some level let through, and what their node then brings. */
  lemma InputsBring(inner: Local)
    ensures forall c :: InputOk(c, inner) <==> c == 0 || LevelOf(inner) == At(c)
    ensures forall c :: LevelOf(Result(c, inner)) == Passed(c, LevelOf(inner))
    ensures LevelOf(NOTHING) == Bottom && forall l :: Join(Bottom, l) == l
  {
  }

  lemma {:induction false} ArgIff(env: Env, arg: Expr)
    ensures Walk(env, arg, NOTHING).Some? <==> Sendable(env, arg) && Matched(env, arg)
    ensures Walk(env, arg, NOTHING).Some? ==> Admitted(Walk(env, arg, NOTHING).value, Brings(env, arg))
    ensures LevelOf(NOTHING) == Bottom
    decreases arg, 2
  {
    hide Walk;
    hide Brings;
    WalkIff(env, arg, NOTHING);
    InputsBring(NOTHING);
    if Walk(env, arg, NOTHING).Some? { InputsBring(Walk(env, arg, NOTHING).value); }
  }

  lemma {:induction false} ArgsIff(env: Env, items: seq<Expr>)
    ensures WalkAll(env, items, NOTHING).Some? <==>
            forall i :: 0 <= i < |items| ==> Sendable(env, items[i]) && Matched(env, items[i])
    ensures WalkAll(env, items, NOTHING).Some? ==> Admitted(WalkAll(env, items, NOTHING).value, BringAll(env, items))
    decreases items, 1
  {
    hide WalkAll;
    hide BringAll;
    WalkAllIff(env, items, NOTHING);
    InputsBring(NOTHING);
    if WalkAll(env, items, NOTHING).Some? { InputsBring(WalkAll(env, items, NOTHING).value); }
  }

  /** inner is at the given level, as far as a node above can see. */
  ghost predicate Admitted(inner: Local, level: Level) {
    && LevelOf(inner) == level
    && (forall c :: InputOk(c, inner) <==> c == 0 || level == At(c))
    && forall c :: LevelOf(Result(c, inner)) == Passed(c, level)
  }

  lemma {:induction false} ArrayRefIff(env: Env, e: Expr)
    requires e.ArrayRef?
    ensures Own(env, e).Some? <==> Sendable(env, e) && Matched(env, e)
    ensures Own(env, e).Some? ==> LevelOf(Own(env, e).value) == Brings(env, e)
    decreases e, 0, 0
  {
    hide Walk;
    hide InputOk;
    hide Result;
    hide LevelOf;
    hide Join;
    hide Passed;
    InputsBring(NOTHING);
    WalkIff(env, e.upper, NOTHING);
    var i1 := Walk(env, e.upper, NOTHING);
    if i1.Some? {
      WalkIff(env, e.lower, i1.value);
      var i2 := Walk(env, e.lower, i1.value);
      if i2.Some? {
        WalkIff(env, e.arg, i2.value);
        var i3 := Walk(env, e.arg, i2.value);
        if i3.Some? { InputsBring(i3.value); }
      }
    }
  }

  lemma {:induction false} WalkAllIff(env: Env, items: seq<Expr>, inner: Local)
    ensures WalkAll(env, items, inner).Some? <==>
            forall i :: 0 <= i < |items| ==> Sendable(env, items[i]) && Matched(env, items[i])
    ensures WalkAll(env, items, inner).Some? ==>
              LevelOf(WalkAll(env, items, inner).value) == Join(LevelOf(inner), BringAll(env, items))
    decreases items, 0
  {
    hide Sendable;
    hide Matched;
    hide Brings;
    hide Walk;
    if items != [] {
      WalkIff(env, items[0], inner);
      var next := Walk(env, items[0], inner);
      assert forall i :: 1 <= i < |items| ==> items[i] == items[1..][i - 1];
      assert forall i :: 0 <= i < |items| - 1 ==> items[1..][i] == items[i + 1];
      if next.Some? {
        WalkAllIff(env, items[1..], next.value);
        JoinLaws(LevelOf(inner), Brings(env, items[0]), BringAll(env, items[1..]));
      }
    }
  }

  /** What a list brings, whatever its order: nothing if all items bring nothing; a collation if some item
      brings it and the others bring that one, the default or nothing; and otherwise a conflict. */
  lemma {:induction false} BringAllIff(env: Env, items: seq<Expr>)
    ensures BringAll(env, items) == Bottom <==> forall i :: 0 <= i < |items| ==> Brings(env, items[i]) == Bottom
    ensures forall c :: BringAll(env, items) == At(c) <==>
              && (exists i :: 0 <= i < |items| && Brings(env, items[i]) == At(c))
              && (forall i :: 0 <= i < |items| ==> Brings(env, items[i]) in {Bottom, At(100), At(c)})
  {
    hide Brings;
    if items != [] {
      BringAllIff(env, items[1..]);
      assert items == [items[0]] + items[1..];
      assert forall i :: 0 <= i < |items| - 1 ==> items[1..][i] == items[i + 1];
    }
  }

  /** Exactly these expressions are sent to the remote server. */
  lemma SentIff(env: Env, e: Expr, mutableFunctions: bool)
    ensures IsForeignExpr(env, e, mutableFunctions) <==>
            Sendable(env, e) && Matched(env, e) && Brings(env, e) != Top && !mutableFunctions
  {
    WalkIff(env, e, NOTHING);
  }
}
