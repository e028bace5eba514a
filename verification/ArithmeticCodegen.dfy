/** The code of arithmetic expressions, be/src/exprs/arithmetic-expr.cc, with the children inlined, and that the
    elimination of repeated columns keeps its meaning. */
module ArithmeticCodegen {
  import opened CodegenIr
  import opened CodegenRuns
  import opened Folding
  import opened SubExprElimination
  import opened SubExprForm
  import opened SubExprSound
  import opened SubExprExact

  datatype Expr = Column(fn: Fn) | Literal | Unary(arg: Expr) | Binary(lhs: Expr, rhs: Expr)

  // The parameters; the value of instruction k is k + 4.
  const ROW: Var := 0
  const FALSE: Var := 1
  const LITERAL: Var := 2
  const NULL_VALUE: Var := 3

  /** Where the code of an expression stands: it starts at a, and the code of its operands ends at k and at m. */
  datatype Tree =
    | ColumnAt(a: nat, fn: Fn)
    | LiteralAt(a: nat)
    | UnaryAt(a: nat, arg: Tree, k: nat)
    | BinaryAt(a: nat, lhs: Tree, k: nat, rhs: Tree, m: nat)

  function ExprOf(t: Tree): Expr {
    match t
    case ColumnAt(_, fn) => Column(fn)
    case LiteralAt(_) => Literal
    case UnaryAt(_, arg, _) => Unary(ExprOf(arg))
    case BinaryAt(_, lhs, _, rhs, _) => Binary(ExprOf(lhs), ExprOf(rhs))
  }

  function End(t: Tree): nat {
    match t
    case ColumnAt(a, _) => a + 1
    case LiteralAt(a) => a + 1
    case UnaryAt(_, _, k) => k + 5
    case BinaryAt(_, _, _, _, m) => m + 5
  }

  /** Where the value of an expression is. */
  function Result(t: Tree): Var {
    if t.LiteralAt? then LITERAL else End(t) + 3
  }

  /** What comes into the block that returns: the value of NULL from the tests behind the operands, and the result. */
  function Incoming(k: nat, m: nat): map<int, seq<Var>> {
    map[k + 1 := [NULL_VALUE], m + 1 := [NULL_VALUE], m + 3 := [m + 6]]
  }

  /** Behind an operand, at k, its flag is loaded, and control goes to `ret` if it is NULL. */
  ghost predicate TestAt(code: Code, k: nat, ret: nat) {
    k + 1 < |code| && code[k] == LoadNull(k + 4, 0) && code[k + 1] == Branch(Of(k + 4), ret, k + 2)
  }

  /** At m there are the last test, the operation and the block that returns. */
  ghost predicate TailAt(code: Code, m: nat, args: seq<Operand>, incoming: map<int, seq<Var>>) {
    && TestAt(code, m, m + 4) && m + 4 < |code|
    && code[m + 2] == Op(m + 6, 0, args) && code[m + 3] == Jump(m + 4) && code[m + 4] == Phi([m + 8], incoming)
  }

  /** The code of the expression; all flags go to slot 0.  The trigger keeps the definition folded except for the tree
      that a proof opens. */
  ghost predicate Body(code: Code, t: Tree)
    decreases t, 1
  {
    forall u {:trigger Unfold(u)} :: Unfold(u) && u == t ==> Node(code, u)
  }

  ghost predicate Node(code: Code, t: Tree)
    decreases t, 0
  {
    match t
    case ColumnAt(a, fn) => a < |code| && code[a] == Call(a + 4, fn, ROW, 0)
    case LiteralAt(a) => a < |code| && code[a] == StoreNull(0, Of(FALSE))
    case UnaryAt(a, arg, k) =>
      a == arg.a < k == End(arg) && Body(code, arg) && TailAt(code, k, [Of(Result(arg))], Incoming(k, k))
    case BinaryAt(a, lhs, k, rhs, m) =>
      && a == lhs.a < k == End(lhs) && k + 2 == rhs.a < m == End(rhs) && Body(code, lhs) && Body(code, rhs)
      && TestAt(code, k, m + 4) && TailAt(code, m, [Of(Result(lhs)), Of(Result(rhs))], Incoming(k, m))
  }

  /** A function that evaluates the expression and returns its value together with its flag. */
  ghost predicate IsFunction(code: Code, t: Tree) {
    var n := End(t);
    && Body(code, t) && t.a == 0 && |code| == n + 3 && code[n] == LoadNull(n + 4, 0)
    && code[n + 1] == Op(n + 5, 1, [Of(Result(t)), Of(n + 4)]) && code[n + 2] == Ret(Of(n + 5))
  }

  // ----- the code generator -----

  function Size(e: Expr): (n: nat)
    ensures n > 0
  {
    match e
    case Column(_) => 1
    case Literal => 1
    case Unary(arg) => Size(arg) + 5
    case Binary(lhs, rhs) => Size(lhs) + Size(rhs) + 7
  }

  lemma {:induction false} BodyExtends(code: Code, more: Code, t: Tree)
    requires Body(code, t)
    ensures Body(code + more, t)
    decreases t
  {
    assert Unfold(t);
    if t.UnaryAt? {
      BodyExtends(code, more, t.arg);
    } else if t.BinaryAt? {
      BodyExtends(code, more, t.lhs);
      BodyExtends(code, more, t.rhs);
    }
  }

  /** Appends the last test, the operation and the block that returns. */
  method EmitTail(before: Code, args: seq<Operand>, incoming: map<int, seq<Var>>) returns (code: Code)
    ensures |code| == |before| + 5 && before <= code && TailAt(code, |before|, args, incoming)
  {
    var m := |before|;
    var test := [LoadNull(m + 4, 0), Branch(Of(m + 4), m + 4, m + 2)];
    code := before + test + [Op(m + 6, 0, args), Jump(m + 4), Phi([m + 8], incoming)];
  }

  lemma StillBody(before: Code, code: Code, t: Tree)
    requires Body(before, t) && before <= code
    ensures Body(code, t)
  {
    BodyExtends(before, code[|before|..], t);
    assert before + code[|before|..] == code;
  }

  /** Appends the code of e. */
  method Emit(before: Code, e: Expr) returns (code: Code, t: Tree)
    ensures ExprOf(t) == e && t.a == |before| && End(t) == |code| == |before| + Size(e)
    ensures before <= code && Body(code, t)
    decreases e
  {
    var a := |before|;
    match e
    case Column(fn) => code, t := before + [Call(a + 4, fn, ROW, 0)], ColumnAt(a, fn);
    case Literal => code, t := before + [StoreNull(0, Of(FALSE))], LiteralAt(a);
    case Unary(_) => code, t := EmitUnary(before, e);
    case Binary(_, _) => code, t := EmitBinary(before, e);
  }

  method EmitUnary(before: Code, e: Expr) returns (code: Code, t: Tree)
    requires e.Unary?
    ensures ExprOf(t) == e && t.a == |before| && End(t) == |code| == |before| + Size(e)
    ensures before <= code && Body(code, t)
    decreases e, 0
  {
    var c, arg := Emit(before, e.arg);
    code := EmitTail(c, [Of(Result(arg))], Incoming(|c|, |c|));
    t := UnaryAt(|before|, arg, |c|);
    StillBody(c, code, arg);
  }

  method EmitBinary(before: Code, e: Expr) returns (code: Code, t: Tree)
    requires e.Binary?
    ensures ExprOf(t) == e && t.a == |before| && End(t) == |code| == |before| + Size(e)
    ensures before <= code && Body(code, t)
    decreases e, 0
  {
    var c, lhs := Emit(before, e.lhs);
    var k := |c|;
    var m := k + 2 + Size(e.rhs);
    var d := c + [LoadNull(k + 4, 0), Branch(Of(k + 4), m + 4, k + 2)];
    var r, rhs := Emit(d, e.rhs);
    code := EmitTail(r, [Of(Result(lhs)), Of(Result(rhs))], Incoming(k, m));
    t := BinaryAt(|before|, lhs, k, rhs, m);
    assert code[k] == d[k] && code[k + 1] == d[k + 1];
    StillBody(c, code, lhs);
    StillBody(r, code, rhs);
  }

  method Codegen(e: Expr) returns (code: Code, t: Tree)
    ensures ExprOf(t) == e && IsFunction(code, t)
  {
    var c;
    c, t := Emit([], e);
    var n := |c|;
    code := c + [LoadNull(n + 4, 0), Op(n + 5, 1, [Of(Result(t)), Of(n + 4)]), Ret(Of(n + 5))];
    StillBody(c, code, t);
  }

  // ----- what holds of every instruction -----

  ghost predicate FallsThrough(code: Code, x: nat) {
    x + 1 < |code| && !code[x + 1].Phi?
  }

  /** One of the values that reach a return block: that of NULL from a branch, or the result from in front of it. */
  ghost predicate FlowOk(code: Code, x: nat, f: int, vs: seq<Var>)
    requires x < |code|
  {
    0 <= f < x && ((code[f].Branch? && vs == [NULL_VALUE]) || (f == x - 1 && vs == [x + 2]))
  }

  ghost predicate Ok(code: Code, x: nat)
    requires x < |code|
  {
    match code[x]
    case Call(dst, _, row, slot) =>
      dst == x + 4 && row == ROW && slot == 0 && FallsThrough(code, x) && code[x + 1] == LoadNull(x + 5, 0) &&
      (x == 0 || code[x - 1].Branch?)
    case LoadNull(dst, slot) => dst == x + 4 && slot == 0 && FallsThrough(code, x)
    case StoreNull(slot, value) => slot == 0 && value == Of(FALSE) && FallsThrough(code, x)
    case Op(dst, _, args) =>
      && dst == x + 4 && FallsThrough(code, x) && x > 0 && (forall o :: o in args ==> o.Of?)
      && ((code[x - 1].Branch? && code[x + 1].Jump?) || x + 2 == |code|)
    case Phi(dsts, incoming) =>
      && dsts == [x + 4] && FallsThrough(code, x) && x > 0 && code[x - 1].Jump?
      && forall f :: f in incoming ==> FlowOk(code, x, f, incoming[f])
    case Branch(cond, yes, no) =>
      && x > 0 && code[x - 1] == LoadNull(x + 3, 0) && cond == Of(x + 3) && no == x + 1 && FallsThrough(code, x)
      && x + 1 < yes < |code| && code[yes].Phi? && x in code[yes].incoming
    case Jump(target) => target == x + 1 < |code| && code[target].Phi? && x in code[target].incoming
    case Ret(result) => result == Of(x + 3) && x > 0
    case Erased => false
  }

  ghost predicate AllOk(code: Code, a: nat, end: nat) {
    forall x :: a <= x < end && x < |code| ==> Ok(code, x)
  }

  /** Where the code of an expression stands: its flag is loaded behind it, and the operand before is tested. */
  ghost predicate Context(code: Code, a: nat, end: nat) {
    a < end && end + 1 < |code| && code[end] == LoadNull(end + 4, 0) && !code[end + 1].Phi? &&
    (a == 0 || code[a - 1].Branch?)
  }

  lemma {:induction false} StartsWithLeaf(code: Code, t: Tree)
    requires Body(code, t)
    ensures t.a < |code| && (code[t.a].Call? || code[t.a].StoreNull?)
    decreases t
  {
    assert Unfold(t);
    if t.UnaryAt? {
      StartsWithLeaf(code, t.arg);
    } else if t.BinaryAt? {
      StartsWithLeaf(code, t.lhs);
    }
  }

  lemma NodeOf(code: Code, t: Tree)
    requires Body(code, t)
    ensures Node(code, t)
  {
    assert Unfold(t);
  }

  ghost predicate BinaryParts(code: Code, t: Tree)
    requires t.BinaryAt?
  {
    var k, m := t.k, t.m;
    && t.a == t.lhs.a < k == End(t.lhs) && k + 2 == t.rhs.a < m == End(t.rhs) && Body(code, t.lhs) && Body(code, t.rhs)
    && TestAt(code, k, m + 4) && TailAt(code, m, [Of(Result(t.lhs)), Of(Result(t.rhs))], Incoming(k, m))
    && Context(code, t.a, k) && Context(code, k + 2, m) && !code[k + 2].Phi?
  }

  lemma OfBinary(code: Code, t: Tree)
    requires t.BinaryAt? && Body(code, t) && Context(code, t.a, End(t))
    ensures BinaryParts(code, t)
  {
    NodeOf(code, t);
    StartsWithLeaf(code, t.rhs);
  }

  ghost predicate UnaryParts(code: Code, t: Tree)
    requires t.UnaryAt?
  {
    var k := t.k;
    && t.a == t.arg.a < k == End(t.arg) && Body(code, t.arg)
    && TailAt(code, k, [Of(Result(t.arg))], Incoming(k, k)) && Context(code, t.a, k)
  }

  lemma OfUnary(code: Code, t: Tree)
    requires t.UnaryAt? && Body(code, t) && Context(code, t.a, End(t))
    ensures UnaryParts(code, t)
  {
    NodeOf(code, t);
  }

  lemma TailOk(code: Code, m: nat, args: seq<Operand>, incoming: map<int, seq<Var>>)
    requires TailAt(code, m, args, incoming) && m + 5 < |code| && !code[m + 5].Phi?
    requires m + 1 in incoming && m + 3 in incoming && (forall o :: o in args ==> o.Of?)
    requires forall f :: f in incoming ==> FlowOk(code, m + 4, f, incoming[f])
    ensures AllOk(code, m, m + 5)
  {
    assert Ok(code, m) && Ok(code, m + 1) && Ok(code, m + 2) && Ok(code, m + 3) && Ok(code, m + 4);
  }

  lemma TestOk(code: Code, k: nat, ret: nat)
    requires TestAt(code, k, ret) && k + 2 < ret < |code|
    requires !code[k + 2].Phi? && code[ret].Phi? && k + 1 in code[ret].incoming
    ensures AllOk(code, k, k + 2)
  {
    assert Ok(code, k) && Ok(code, k + 1);
  }

  lemma FlowsOk(code: Code, k: nat, m: nat)
    requires k <= m && m + 4 < |code| && code[k + 1].Branch? && code[m + 1].Branch?
    ensures forall f :: f in Incoming(k, m) ==> FlowOk(code, m + 4, f, Incoming(k, m)[f])
  {
  }

  lemma OkJoins(code: Code, a: nat, b: nat, c: nat)
    requires AllOk(code, a, b) && AllOk(code, b, c)
    ensures AllOk(code, a, c)
  {
  }

  lemma LeafOk(code: Code, a: nat)
    requires Context(code, a, a + 1)
    requires code[a] == StoreNull(0, Of(FALSE)) || (code[a].Call? && code[a] == Call(a + 4, code[a].fn, ROW, 0))
    ensures AllOk(code, a, a + 1)
  {
    assert Ok(code, a);
  }

  lemma {:induction false} BinaryOk(code: Code, t: Tree)
    requires t.BinaryAt? && BinaryParts(code, t) && Context(code, t.a, End(t))
    ensures AllOk(code, t.k, t.k + 2) && AllOk(code, t.m, t.m + 5)
  {
    TestOk(code, t.k, t.m + 4);
    FlowsOk(code, t.k, t.m);
    TailOk(code, t.m, [Of(Result(t.lhs)), Of(Result(t.rhs))], Incoming(t.k, t.m));
  }

  /** Every instruction of the code of an expression is as it should be. */
  lemma {:induction false} BodyOk(code: Code, t: Tree)
    requires Body(code, t) && Context(code, t.a, End(t))
    ensures AllOk(code, t.a, End(t))
    decreases t
  {
    if t.UnaryAt? {
      var k := t.k;
      OfUnary(code, t);
      BodyOk(code, t.arg);
      FlowsOk(code, k, k);
      TailOk(code, k, [Of(Result(t.arg))], Incoming(k, k));
      OkJoins(code, t.a, k, k + 5);
    } else if t.BinaryAt? {
      OfBinary(code, t);
      BodyOk(code, t.lhs);
      BodyOk(code, t.rhs);
      BinaryOk(code, t);
      OkJoins(code, t.a, t.k, t.k + 2);
      OkJoins(code, t.a, t.k + 2, t.m);
      OkJoins(code, t.a, t.m, t.m + 5);
    } else {
      NodeOf(code, t);
      LeafOk(code, t.a);
    }
  }

  lemma FunctionOk(code: Code, t: Tree)
    requires IsFunction(code, t)
    ensures AllOk(code, 0, |code|)
  {
    var n := End(t);
    BodyOk(code, t);
    assert Ok(code, n) && Ok(code, n + 1) && Ok(code, n + 2);
  }

  // ----- the form of the code -----

  lemma OkEdge(code: Code, x: nat, y: nat)
    requires AllOk(code, 0, |code|) && Edge(code, x, y)
    ensures x < y < |code| && if code[y].Phi? then x in code[y].incoming else x == y - 1
  {
    assert Ok(code, x);
  }

  lemma OkDefs(code: Code, k: nat, x: Var)
    requires AllOk(code, 0, |code|) && k < |code| && x in Defs(code[k])
    ensures x == k + 4
  {
    assert Ok(code, k);
  }

  lemma OkForm(code: Code)
    requires AllOk(code, 0, |code|)
    ensures SingleDefs(code) && RowsApart(code) && FollowedByLoad(code, 0) && Plain(code)
  {
    forall p, q, x | 0 <= p < |code| && 0 <= q < |code| && x in Defs(code[p]) && x in Defs(code[q]) ensures p == q {
      OkDefs(code, p, x);
      OkDefs(code, q, x);
    }
    forall p, q | IsCall(code, p) && IsCall(code, q) ensures code[p].row != code[q].dst {
      assert Ok(code, p) && Ok(code, q);
    }
    forall p | IsCall(code, p) ensures p + 1 < |code| && code[p + 1].LoadNull? && code[p + 1].slot == code[p].slot {
      assert Ok(code, p);
    }
    forall u, x | 0 <= u < |code| ensures LiveIn(x) !in Uses(code[u]) {
      assert Ok(code, u);
    }
  }

  lemma OkEntries(code: Code)
    requires AllOk(code, 0, |code|)
    ensures EntersAtStarts(code)
  {
    forall p: nat, q: nat | Edge(code, p, q) && Terminates(code[p]) ensures q <= |code| && BlockStart(code, q) == q {
      OkEdge(code, p, q);
      assert Ok(code, p) && Ok(code, q);
    }
  }

  /** An instruction that is not a phi is reached from the one before only. */
  lemma DomPrevious(code: Code, y: nat)
    requires AllOk(code, 0, |code|) && 0 < y < |code| && !code[y].Phi?
    ensures Dom(code, y - 1, y)
  {
    forall path | IsPath(code, path) && Last(path) == y ensures y - 1 in path {
      var n := |path| - 1;
      assert Edge(code, path[n - 1], path[n]);
      OkEdge(code, path[n - 1], path[n]);
      assert path[n - 1] == y - 1;
    }
  }

  lemma OkFlows(code: Code)
    requires AllOk(code, 0, |code|)
    ensures DefsDominateFlows(code)
  {
    forall d: nat, u, f, x ensures DominatesFlow(code, d, u, f, x) {
      if d < |code| && x in Defs(code[d]) && FlowsIn(code, u, f, x) {
        OkDefs(code, d, x);
        assert Ok(code, u) && FlowOk(code, u, f, code[u].incoming[f]);
        DomPrevious(code, f);
      }
    }
  }

  // ----- control enters the code of an expression at its beginning -----

  ghost predicate PhiInside(code: Code, a: nat, u: nat)
    requires u < |code|
  {
    code[u].Phi? ==> forall f :: f in code[u].incoming ==> a <= f
  }

  ghost predicate PhisInside(code: Code, a: nat, end: nat) {
    forall u :: a <= u < end && u < |code| ==> PhiInside(code, a, u)
  }

  lemma InsideJoins(code: Code, a: nat, b: nat, c: nat, d: nat)
    requires a <= c && PhisInside(code, a, b) && PhisInside(code, c, d)
    requires forall u :: b <= u < c && u < |code| ==> !code[u].Phi?
    ensures PhisInside(code, a, d)
  {
    forall u | a <= u < d && u < |code| ensures PhiInside(code, a, u) {
      assert c <= u ==> PhiInside(code, c, u);
    }
  }

  lemma TailInside(code: Code, a: nat, k: nat, m: nat, args: seq<Operand>)
    requires TailAt(code, m, args, Incoming(k, m)) && a <= k <= m
    ensures PhisInside(code, a, m + 5) <==> PhisInside(code, a, m)
  {
    if PhisInside(code, a, m) {
      assert PhiInside(code, a, m) && PhiInside(code, a, m + 1);
      assert PhiInside(code, a, m + 2) && PhiInside(code, a, m + 3);
      assert PhiInside(code, a, m + 4);
    }
  }

  lemma {:induction false} BodyInside(code: Code, t: Tree)
    requires Body(code, t) && Context(code, t.a, End(t))
    ensures PhisInside(code, t.a, End(t))
    decreases t
  {
    if t.UnaryAt? {
      OfUnary(code, t);
      BodyInside(code, t.arg);
      TailInside(code, t.a, t.k, t.k, [Of(Result(t.arg))]);
    } else if t.BinaryAt? {
      OfBinary(code, t);
      BodyInside(code, t.lhs);
      BodyInside(code, t.rhs);
      InsideJoins(code, t.a, t.k, t.k + 2, t.m);
      TailInside(code, t.a, t.k, t.m, [Of(Result(t.lhs)), Of(Result(t.rhs))]);
    } else {
      NodeOf(code, t);
    }
  }

  lemma {:induction false} EntryOnPath(code: Code, a: nat, end: nat, path: seq<nat>)
    requires AllOk(code, 0, |code|) && PhisInside(code, a, end) && end < |code| && !code[end].Phi?
    requires IsPath(code, path) && a <= Last(path) <= end
    ensures a in path
    decreases |path|
  {
    var n := |path| - 1;
    if Last(path) == a {
      assert path[n] == a;
    } else {
      assert n > 0 && Edge(code, path[n - 1], path[n]);
      OkEdge(code, path[n - 1], path[n]);
      assert Last(path) < end ==> PhiInside(code, a, Last(path));
      assert IsPath(code, path[..n]) && Last(path[..n]) == path[n - 1];
      EntryOnPath(code, a, end, path[..n]);
    }
  }

  /** So its first instruction dominates the others, and the one behind it. */
  lemma DomStart(code: Code, t: Tree, u: nat)
    requires AllOk(code, 0, |code|) && Body(code, t) && Context(code, t.a, End(t)) && t.a <= u <= End(t)
    ensures Dom(code, t.a, u)
  {
    BodyInside(code, t);
    forall path | IsPath(code, path) && Last(path) == u ensures t.a in path {
      EntryOnPath(code, t.a, End(t), path);
    }
  }

  lemma {:induction false} DomChain(code: Code, x: nat, y: nat)
    requires AllOk(code, 0, |code|) && x <= y < |code| && forall k :: x < k <= y ==> !code[k].Phi?
    ensures Dom(code, x, y)
    decreases y
  {
    if x == y {
    } else {
      DomChain(code, x, y - 1);
      DomPrevious(code, y);
      DomTrans(code, x, y - 1, y);
    }
  }

  /** A value that is not a parameter is computed before u. */
  ghost predicate ComputedBefore(code: Code, x: Var, u: nat) {
    4 <= x ==> x - 4 < u && Dom(code, x - 4, u)
  }

  /** The operands are evaluated before the operation. */
  ghost predicate ArgsOk(code: Code, u: nat)
    requires u < |code|
  {
    code[u].Op? ==> forall x :: Of(x) in code[u].args ==> ComputedBefore(code, x, u)
  }

  ghost predicate AllArgsOk(code: Code, a: nat, end: nat) {
    forall u :: a <= u < end && u < |code| ==> ArgsOk(code, u)
  }

  lemma ArgsJoin(code: Code, a: nat, b: nat, c: nat)
    requires AllArgsOk(code, a, b) && AllArgsOk(code, b, c)
    ensures AllArgsOk(code, a, c)
  {
  }

  lemma TailArgs(code: Code, m: nat, args: seq<Operand>, incoming: map<int, seq<Var>>)
    requires TailAt(code, m, args, incoming) && forall x :: Of(x) in args ==> ComputedBefore(code, x, m + 2)
    ensures AllArgsOk(code, m, m + 5)
  {
    assert ArgsOk(code, m) && ArgsOk(code, m + 1) && ArgsOk(code, m + 2) && ArgsOk(code, m + 3) && ArgsOk(code, m + 4);
  }

  lemma TestArgs(code: Code, k: nat, ret: nat)
    requires TestAt(code, k, ret)
    ensures AllArgsOk(code, k, k + 2)
  {
    assert ArgsOk(code, k) && ArgsOk(code, k + 1);
  }

  lemma BinaryArgs(code: Code, t: Tree)
    requires AllOk(code, 0, |code|) && t.BinaryAt? && BinaryParts(code, t)
    ensures AllArgsOk(code, t.k, t.k + 2) && AllArgsOk(code, t.m, t.m + 5)
  {
    var k, m := t.k, t.m;
    DomChain(code, k - 1, k + 2);
    DomStart(code, t.rhs, m);
    DomTrans(code, k - 1, k + 2, m);
    DomChain(code, m - 1, m + 2);
    DomChain(code, m, m + 2);
    DomTrans(code, k - 1, m, m + 2);
    TestArgs(code, k, m + 4);
    TailArgs(code, m, [Of(Result(t.lhs)), Of(Result(t.rhs))], Incoming(k, m));
  }

  lemma UnaryArgs(code: Code, t: Tree)
    requires AllOk(code, 0, |code|) && t.UnaryAt? && UnaryParts(code, t)
    ensures AllArgsOk(code, t.k, t.k + 5)
  {
    DomChain(code, t.k - 1, t.k + 2);
    TailArgs(code, t.k, [Of(Result(t.arg))], Incoming(t.k, t.k));
  }

  lemma {:induction false} BodyArgs(code: Code, t: Tree)
    requires AllOk(code, 0, |code|) && Body(code, t) && Context(code, t.a, End(t))
    ensures AllArgsOk(code, t.a, End(t))
    decreases t
  {
    if t.UnaryAt? {
      var k := t.k;
      OfUnary(code, t);
      BodyArgs(code, t.arg);
      UnaryArgs(code, t);
      ArgsJoin(code, t.a, k, k + 5);
    } else if t.BinaryAt? {
      var k, m := t.k, t.m;
      OfBinary(code, t);
      BodyArgs(code, t.lhs);
      BodyArgs(code, t.rhs);
      BinaryArgs(code, t);
      ArgsJoin(code, t.a, k, k + 2);
      ArgsJoin(code, t.a, k + 2, m);
      ArgsJoin(code, t.a, m, m + 5);
    } else {
      NodeOf(code, t);
    }
  }

  lemma FunctionArgs(code: Code, t: Tree)
    requires IsFunction(code, t)
    ensures AllArgsOk(code, 0, |code|)
  {
    var n := End(t);
    FunctionOk(code, t);
    BodyArgs(code, t);
    DomChain(code, n - 1, n + 1);
    DomPrevious(code, n + 1);
    assert ArgsOk(code, n) && ArgsOk(code, n + 1) && ArgsOk(code, n + 2);
  }

  lemma OkUses(code: Code)
    requires AllOk(code, 0, |code|) && AllArgsOk(code, 0, |code|)
    ensures DefsDominateUses(code)
  {
    forall d: nat, u: nat, x ensures DominatesUse(code, d, u, x) {
      if d < |code| && u < |code| && x in Defs(code[d]) && Of(x) in Uses(code[u]) {
        OkDefs(code, d, x);
        assert Ok(code, u) && ArgsOk(code, u);
        if code[u].Op? {
          assert ComputedBefore(code, x, u);
        } else {
          DomPrevious(code, u);
        }
      }
    }
  }

  // ----- what has been evaluated -----

  /** The column at c has been evaluated on the path, and was not NULL. */
  ghost predicate NotNull(code: Code, path: seq<nat>, c: nat) {
    exists j :: 0 <= j < |path| && path[j] == c && FoundFalse(code, path, j + 1, 0)
  }

  /** Where control stands behind the test of an expression, its columns have all been evaluated. */
  ghost predicate AllNotNull(code: Code, path: seq<nat>, a: nat, end: nat) {
    forall c :: a <= c < end && IsCall(code, c) ==> NotNull(code, path, c)
  }

  lemma StepBack(code: Code, path: seq<nat>, i: nat)
    requires AllOk(code, 0, |code|) && IsPath(code, path) && i < |path| && path[i] < |code| && path[i] > 0 &&
             !code[path[i]].Phi?
    ensures i > 0 && path[i - 1] == path[i] - 1
  {
    assert i > 0 && Edge(code, path[i - 1], path[i]);
    OkEdge(code, path[i - 1], path[i]);
  }

  lemma StepBackPhi(code: Code, path: seq<nat>, i: nat)
    requires AllOk(code, 0, |code|) && IsPath(code, path) && i < |path| && path[i] < |code| && path[i] > 0 &&
             code[path[i]].Phi?
    ensures i > 0 && path[i - 1] in code[path[i]].incoming
  {
    assert i > 0 && Edge(code, path[i - 1], path[i]);
    OkEdge(code, path[i - 1], path[i]);
  }

  /** Behind a test, the flag has been found false. */
  lemma TestPassed(code: Code, path: seq<nat>, i: nat, k: nat, ret: nat)
    requires AllOk(code, 0, |code|) && IsPath(code, path) && TestAt(code, k, ret) && i < |path| &&
             path[i] == k + 2 < |code|
    requires !code[k + 2].Phi? && ret != k + 2
    ensures i >= 2 && path[i - 1] == k + 1 && path[i - 2] == k && FoundFalse(code, path, i - 2, 0)
  {
    StepBack(code, path, i);
    StepBack(code, path, i - 1);
  }

  /** Where control comes from a test, the flag was found true. */
  lemma TestFailed(code: Code, path: seq<nat>, i: nat, k: nat, ret: nat)
    requires AllOk(code, 0, |code|) && IsPath(code, path) && TestAt(code, k, ret) && 0 < i < |path|
    requires path[i - 1] == k + 1 && path[i] == ret != k + 2
    ensures i >= 2 && path[i - 2] == k && FoundNull(code, path, i - 2, 0)
  {
    StepBack(code, path, i - 1);
  }

  /** A flag that was found true, and found false when the operation had returned. */
  lemma NullThenFalse(code: Code, path: seq<nat>, i: nat, k: nat, ret: nat, test: nat, other: nat)
    requires AllOk(code, 0, |code|) && IsPath(code, path) && TestAt(code, k, ret) && TestAt(code, test, other)
    requires 4 < i < |path| && path[i - 4] == k + 1 && path[i - 3] == ret == test - 1 && path[i] == test + 2 < |code|
    requires ret != k + 2 && other != test + 2 && ret < |code| && code[ret].Phi? && !code[test + 2].Phi?
    ensures Contradicts(code, path, i - 5, i - 2, 0)
  {
    TestPassed(code, path, i, test, other);
    TestFailed(code, path, i - 3, k, ret);
  }

  /** Behind the test of an operation, control came through the operation itself, or the tests contradict. */
  lemma CameThrough(code: Code, path: seq<nat>, i: nat, k: nat, m: nat, args: seq<Operand>, ret: nat)
    requires AllOk(code, 0, |code|) && IsPath(code, path) && k <= m && TestAt(code, k, m + 4)
    requires TailAt(code, m, args, Incoming(k, m)) && TestAt(code, m + 5, ret) && ret != m + 7
    requires m + 7 < |code| && !code[m + 7].Phi? && i < |path| && path[i] == m + 7
    ensures i > 4 && (path[i - 5] == m + 2 || Contradicts(code, path, i - 5, i - 2, 0))
  {
    TestPassed(code, path, i, m + 5, ret);
    StepBack(code, path, i - 2);
    StepBackPhi(code, path, i - 3);
    StepBack(code, path, i - 4);
    if path[i - 4] == k + 1 {
      NullThenFalse(code, path, i, k, m + 4, m + 5, ret);
    } else if path[i - 4] == m + 1 {
      NullThenFalse(code, path, i, m, m + 4, m + 5, ret);
    }
  }

  lemma ThroughOperation(code: Code, path: seq<nat>, i: nat, k: nat, m: nat, args: seq<Operand>, ret: nat)
    returns (j: nat)
    requires AllOk(code, 0, |code|) && Feasible(code, path) && k <= m && TestAt(code, k, m + 4)
    requires TailAt(code, m, args, Incoming(k, m)) && TestAt(code, m + 5, ret) && ret != m + 7
    requires m + 7 < |code| && !code[m + 7].Phi? && i < |path| && path[i] == m + 7
    ensures j < |path| && path[j] == m + 2
  {
    CameThrough(code, path, i, k, m, args, ret);
    j := i - 5;
  }

  /** The flag of the expression is tested. */
  ghost predicate Tested(code: Code, t: Tree, ret: nat) {
    && AllOk(code, 0, |code|) && Context(code, t.a, End(t))
    && TestAt(code, End(t), ret) && ret != End(t) + 2 < |code| && !code[End(t) + 2].Phi?
  }

  lemma RightEntered(code: Code, t: Tree, path: seq<nat>, j: nat) returns (h: nat)
    requires AllOk(code, 0, |code|) && Body(code, t) && Context(code, t.a, End(t)) && IsPath(code, path)
    requires j < |path| && t.a <= path[j] <= End(t)
    ensures h < |path| && path[h] == t.a
  {
    DomStart(code, t, path[j]);
    var upTo := path[..j + 1];
    assert IsPath(code, upTo) && Last(upTo) == path[j];
    assert t.a in upTo;
    h :| 0 <= h < |upTo| && upTo[h] == t.a;
  }

  lemma NotNullJoins(code: Code, path: seq<nat>, a: nat, b: nat, c: nat, d: nat)
    requires AllNotNull(code, path, a, b) && AllNotNull(code, path, c, d)
    requires forall u :: b <= u < c ==> !IsCall(code, u)
    ensures AllNotNull(code, path, a, d)
  {
  }

  lemma NoCallsIn(code: Code, path: seq<nat>, m: nat, args: seq<Operand>, incoming: map<int, seq<Var>>)
    requires TailAt(code, m, args, incoming)
    ensures AllNotNull(code, path, m, m + 5)
  {
  }

  lemma UnaryCovered(code: Code, t: Tree, path: seq<nat>)
    requires t.UnaryAt? && UnaryParts(code, t) && AllNotNull(code, path, t.a, t.k)
    ensures AllNotNull(code, path, t.a, t.k + 5)
  {
    NoCallsIn(code, path, t.k, [Of(Result(t.arg))], Incoming(t.k, t.k));
    NotNullJoins(code, path, t.a, t.k, t.k, t.k + 5);
  }

  lemma BinaryCovered(code: Code, t: Tree, path: seq<nat>)
    requires t.BinaryAt? && BinaryParts(code, t)
    requires AllNotNull(code, path, t.a, t.k) && AllNotNull(code, path, t.k + 2, t.m)
    ensures AllNotNull(code, path, t.a, t.m + 5)
  {
    NotNullJoins(code, path, t.a, t.k, t.k + 2, t.m);
    NoCallsIn(code, path, t.m, [Of(Result(t.lhs)), Of(Result(t.rhs))], Incoming(t.k, t.m));
    NotNullJoins(code, path, t.a, t.m, t.m, t.m + 5);
  }

  lemma LeafEvaluated(code: Code, path: seq<nat>, i: nat, a: nat, ret: nat)
    requires AllOk(code, 0, |code|) && IsPath(code, path) && i < |path| && path[i] == a + 3 < |code|
    requires TestAt(code, a + 1, ret) && ret != a + 3 && !code[a + 3].Phi?
    ensures AllNotNull(code, path, a, a + 1)
  {
    TestPassed(code, path, i, a + 1, ret);
    StepBack(code, path, i - 2);
    assert path[i - 3] == a;
  }

  /** Control has been behind the tests of both operands. */
  lemma BothPassed(code: Code, t: Tree, ret: nat, path: seq<nat>, i: nat) returns (h: nat, j: nat)
    requires t.BinaryAt? && BinaryParts(code, t) && Tested(code, t, ret)
    requires Feasible(code, path) && i < |path| && path[i] == End(t) + 2
    ensures h < |path| && path[h] == t.k + 2 && j < |path| && path[j] == t.m + 2
  {
    j := ThroughOperation(code, path, i, t.k, t.m, [Of(Result(t.lhs)), Of(Result(t.rhs))], ret);
    TestPassed(code, path, j, t.m, t.m + 4);
    h := RightEntered(code, t.rhs, path, j - 2);
  }

  /** Behind the test of an expression all its columns have been evaluated, and were not NULL. */
  lemma {:induction false} Evaluated(code: Code, t: Tree, ret: nat, path: seq<nat>, i: nat)
    requires Body(code, t) && Tested(code, t, ret) && Feasible(code, path) && i < |path| && path[i] == End(t) + 2
    ensures AllNotNull(code, path, t.a, End(t))
    decreases t
  {
    if t.UnaryAt? {
      OfUnary(code, t);
      var j := ThroughOperation(code, path, i, t.k, t.k, [Of(Result(t.arg))], ret);
      Evaluated(code, t.arg, t.k + 4, path, j);
      UnaryCovered(code, t, path);
    } else if t.BinaryAt? {
      OfBinary(code, t);
      var h, j := BothPassed(code, t, ret, path, i);
      Evaluated(code, t.rhs, t.m + 4, path, j);
      Evaluated(code, t.lhs, t.m + 4, path, h);
      BinaryCovered(code, t, path);
    } else {
      NodeOf(code, t);
      LeafEvaluated(code, path, i, t.a, ret);
    }
  }

  /** Where a column is evaluated, all columns before it have been. */
  lemma {:induction false} EvaluatedBefore(code: Code, t: Tree, path: seq<nat>, i: nat)
    requires AllOk(code, 0, |code|) && Body(code, t) && Context(code, t.a, End(t)) && Feasible(code, path)
    requires i < |path| && t.a <= path[i] < End(t) && IsCall(code, path[i])
    ensures AllNotNull(code, path, t.a, path[i])
    decreases t
  {
    if t.UnaryAt? {
      OfUnary(code, t);
      EvaluatedBefore(code, t.arg, path, i);
    } else if t.BinaryAt? {
      OfBinary(code, t);
      if path[i] < t.k {
        EvaluatedBefore(code, t.lhs, path, i);
      } else {
        var h := RightEntered(code, t.rhs, path, i);
        Evaluated(code, t.lhs, t.m + 4, path, h);
        EvaluatedBefore(code, t.rhs, path, i);
        NotNullJoins(code, path, t.a, t.k, t.k + 2, path[i]);
      }
    }
  }

  lemma FunctionCalls(code: Code, t: Tree, c: nat)
    requires IsFunction(code, t) && IsCall(code, c)
    ensures c < End(t) && code[c].slot == 0 && code[c].row == ROW
  {
    FunctionOk(code, t);
    assert Ok(code, c);
  }

  lemma {:induction false} Increases(code: Code, path: seq<nat>, i: nat, j: nat)
    requires AllOk(code, 0, |code|) && IsPath(code, path) && i < j < |path|
    ensures path[i] < path[j]
    decreases j
  {
    assert Edge(code, path[j - 1], path[j]);
    OkEdge(code, path[j - 1], path[j]);
    if i == j - 1 {
    } else {
      Increases(code, path, i, j - 1);
    }
  }

  /** On the way to a column, each earlier one has been called once, and its flag was found false. */
  lemma CalledBefore(code: Code, t: Tree, p: nat, path: seq<nat>)
    requires IsFunction(code, t) && Feasible(code, path) && IsCall(code, p) && IsCall(code, Last(path)) &&
             p < Last(path)
    ensures Fresh(code, path, p, ROW) && WasFalse(code, path, p)
  {
    var n := |path| - 1;
    FunctionOk(code, t);
    FunctionCalls(code, t, p);
    FunctionCalls(code, t, Last(path));
    EvaluatedBefore(code, t, path, n);
    assert NotNull(code, path, p);
    var j :| 0 <= j < |path| && path[j] == p && FoundFalse(code, path, j + 1, 0);
    forall k | j < k < |path| ensures path[k] != p {
      Increases(code, path, j, k);
    }
    forall k | j < k < |path| ensures !Assigns(code, path[k], ROW) {
      if Assigns(code, path[k], ROW) {
        OkDefs(code, path[k], ROW);
      }
    }
  }

  /** In front of a column but the first, the flag of what was evaluated last has been found false. */
  lemma FalseInFront(code: Code, path: seq<nat>)
    requires AllOk(code, 0, |code|) && IsPath(code, path) && IsCall(code, Last(path)) && 0 < Last(path)
    ensures StillFalse(code, path, 0)
  {
    var n, q := |path| - 1, Last(path);
    assert Ok(code, q);
    assert Ok(code, q - 1);
    StepBack(code, path, n);
    StepBack(code, path, n - 1);
    assert FoundFalse(code, path, n - 2, 0);
    assert !Writes(code, path[n - 1], 0);
  }

  lemma {:induction false} LastIsPhi(code: Code, t: Tree)
    requires Body(code, t)
    ensures End(t) - 1 < |code| && (code[End(t) - 1].Phi? || End(t) == t.a + 1)
  {
    assert Unfold(t);
  }

  lemma ColumnUse(code: Code, t: Tree, q: nat, u: nat)
    requires IsFunction(code, t) && IsCall(code, q) && 0 < q && u < |code| && Of(code[q].dst) in Uses(code[u])
    ensures code[u].Op? && 0 < u && code[u - 1].Branch? && code[u + 1].Jump?
  {
    FunctionOk(code, t);
    FunctionCalls(code, t, q);
    assert Ok(code, q) && Ok(code, u);
    assert Unfold(t);
    LastIsPhi(code, t);
  }

  /** The result of a repeated column is used by the operation only, whose block has no call. */
  lemma ColumnUsedElsewhere(code: Code, t: Tree, p: nat, q: nat)
    requires IsFunction(code, t) && Repeats(code, p, q)
    ensures UsedElsewhere(code, p, q)
  {
    forall u | 0 <= u < |code| && Of(code[q].dst) in Uses(code[u]) && Reached(code, u) ensures !SameBlock(code, u, p) {
      ColumnUse(code, t, q, u);
      if SameBlock(code, u, p) {
        assert BlockStart(code, u) == u;
        WithinBlock(code, u + 1, p);
        assert false;
      }
    }
  }

  lemma ColumnReplaceable(code: Code, t: Tree, p: nat, q: nat)
    requires IsFunction(code, t) && Repeats(code, p, q)
    ensures Replaceable(code, p, q)
  {
    FunctionOk(code, t);
    FunctionCalls(code, t, p);
    FunctionCalls(code, t, q);
    ColumnUsedElsewhere(code, t, p, q);
    forall path | Feasible(code, path) && Last(path) == q
      ensures Fresh(code, path, p, code[p].row) && HoldsFlag(code, path, p)
    {
      CalledBefore(code, t, p, path);
      FalseInFront(code, path);
    }
  }

  /** Whatever the columns of an arithmetic expression are and however often they repeat: the elimination keeps what
      the function does. */
  lemma ArithmeticEliminable(code: Code, t: Tree)
    requires IsFunction(code, t)
    ensures Eliminable(code, 0)
  {
    FunctionOk(code, t);
    FunctionArgs(code, t);
    OkForm(code);
    OkEntries(code);
    OkFlows(code);
    OkUses(code);
    forall p, q | Repeats(code, p, q) ensures Replaceable(code, p, q) {
      ColumnReplaceable(code, t, p, q);
    }
  }

  /** The simplest case, colA + colA: the second call repeats the first, and can be replaced. */
  lemma SameColumnTwice(code: Code, fn: Fn)
    requires IsFunction(code, BinaryAt(0, ColumnAt(0, fn), 1, ColumnAt(3, fn), 4))
    ensures Repeats(code, 0, 3) && code[0].slot == code[3].slot && Eliminable(code, 0)
    ensures Equivalent(code, Replaced(code, 0, 3))
  {
    var t := BinaryAt(0, ColumnAt(0, fn), 1, ColumnAt(3, fn), 4);
    NodeOf(code, t);
    NodeOf(code, t.lhs);
    NodeOf(code, t.rhs);
    ArithmeticEliminable(code, t);
    ReplacementSound(code, 0, 3);
  }

  /** The function of an expression before and after the pass: it does the same, and no column is called twice. */
  method OptimizeFunctionWithExprs(e: Expr) returns (plain: Code, code: Code)
    ensures Equivalent(plain, code) && forall p, q :: SameKey(code, p, q) ==> p == q
    ensures exists t :: ExprOf(t) == e && IsFunction(plain, t)
  {
    var t;
    plain, t := Codegen(e);
    ArithmeticEliminable(plain, t);
    var fn := new IrFunction(plain);
    fn.Run();
    code := fn.code[..];
  }
}
