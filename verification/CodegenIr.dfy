/** The part of the intermediate representation that be/src/codegen/subexpr-elimination.cc looks at.

    A function is the list of its instructions, its blocks laid out one after the other.
    Registered calls stand apart, and so do the loads and stores of the stack slots that hold the
    null flags; several calls may share a slot.  Every other instruction, calls of other functions
    included, is an Op, which may read and change the memory.
 */
module CodegenIr {

  type Var = nat       // an SSA value: the result of one instruction, or a parameter
  type Fn = nat
  type Slot = nat      // a stack slot that receives the is_null result of a call
  type Value = int
  type Memory = map<int, Value>

  /** The value of a variable, or the one it had when the block was entered: what a phi at the head of the
      block gives that takes it from every predecessor. */
  datatype Operand = Of(x: Var) | LiveIn(x: Var)

  datatype Instr =
    | Call(dst: Var, fn: Fn, row: Var, slot: Slot)
    | LoadNull(dst: Var, slot: Slot)
    | StoreNull(slot: Slot, value: Operand)
    | Op(dst: Var, op: nat, args: seq<Operand>)
    | Phi(dsts: seq<Var>, incoming: map<int, seq<Var>>)   // the phi nodes of a block, by predecessor
    | Jump(target: nat)
    | Branch(cond: Operand, yes: nat, no: nat)
    | Ret(result: Operand)
    | Erased

  type Code = seq<Instr>

  /** What the functions and operations compute.  A registered call reads nothing but the row. */
  datatype Interp = Interp(eval: (Fn, Value) -> (Value, Value), exec: (nat, seq<Value>, Memory) -> (Value, Memory))

  datatype State =
    | Running(pc: nat, from: int, env: map<Var, Value>, entry: map<Var, Value>, slots: map<Slot, Value>, mem: Memory)
    | Returned(result: Value, mem: Memory)
    | Stuck

  function Get(m: map<nat, Value>, x: nat): Value {
    if x in m then m[x] else 0
  }

  function Set(m: map<nat, Value>, x: nat, v: Value): (r: map<nat, Value>)
    ensures forall y :: Get(r, y) == if y == x then v else Get(m, y)
  {
    m[x := v]
  }

  function GetAll(env: map<Var, Value>, xs: seq<Var>): (vs: seq<Value>)
    ensures |vs| == |xs| && forall i :: 0 <= i < |xs| ==> vs[i] == Get(env, xs[i])
  {
    seq(|xs|, i requires 0 <= i < |xs| => Get(env, xs[i]))
  }

  function Read(o: Operand, env: map<Var, Value>, entry: map<Var, Value>): Value {
    match o
    case Of(x) => Get(env, x)
    case LiveIn(x) => Get(entry, x)
  }

  function ReadAll(os: seq<Operand>, env: map<Var, Value>, entry: map<Var, Value>): (vs: seq<Value>)
    ensures |vs| == |os| && forall i :: 0 <= i < |os| ==> vs[i] == Read(os[i], env, entry)
  {
    seq(|os|, i requires 0 <= i < |os| => Read(os[i], env, entry))
  }

  function SetAll(env: map<Var, Value>, xs: seq<Var>, vs: seq<Value>): (r: map<Var, Value>)
    requires |xs| == |vs|
    ensures forall y :: y !in xs ==> Get(r, y) == Get(env, y)
    decreases |xs|
  {
    if xs == [] then env else SetAll(Set(env, xs[0], vs[0]), xs[1..], vs[1..])
  }

  function Step(it: Interp, code: Code, s: State): State {
    if !s.Running? then s
    else if s.pc >= |code| then Stuck
    else
      var next := s.(pc := s.pc + 1, from := s.pc);
      match code[s.pc]
      case Call(dst, fn, row, slot) =>
        var r := it.eval(fn, Get(s.env, row));
        next.(env := Set(s.env, dst, r.0), slots := Set(s.slots, slot, r.1))
      case LoadNull(dst, slot) => next.(env := Set(s.env, dst, Get(s.slots, slot)))
      case StoreNull(slot, value) => next.(slots := Set(s.slots, slot, Read(value, s.env, s.entry)))
      case Op(dst, op, args) =>
        var r := it.exec(op, ReadAll(args, s.env, s.entry), s.mem);
        next.(env := Set(s.env, dst, r.0), mem := r.1)
      case Phi(dsts, incoming) =>
        if s.from in incoming && |incoming[s.from]| == |dsts|
        then next.(env := SetAll(s.env, dsts, GetAll(s.env, incoming[s.from])))
        else Stuck
      case Jump(target) => next.(pc := target, entry := s.env)
      case Branch(cond, yes, no) => next.(pc := if Read(cond, s.env, s.entry) != 0 then yes else no, entry := s.env)
      case Ret(result) => Returned(Read(result, s.env, s.entry), s.mem)
      case Erased => next
  }

  function Start(params: map<Var, Value>, slots: map<Slot, Value>, mem: Memory): State {
    Running(0, -1, params, params, slots, mem)
  }

  function Steps(it: Interp, code: Code, s: State, n: nat): State {
    if n == 0 then s else Step(it, code, Steps(it, code, s, n - 1))
  }

  /** What a caller sees: the result and the memory on return, and the memory before. */
  datatype View = Value(result: Value, mem: Memory) | Busy(mem: Memory) | Nothing

  function Observe(s: State): View {
    match s
    case Running(_, _, _, _, _, mem) => Busy(mem)
    case Returned(result, mem) => Value(result, mem)
    case Stuck => Nothing
  }

  /** On every input, the two functions do the same after any number of steps. */
  ghost predicate Equivalent(a: Code, b: Code) {
    forall it, params, slots, mem, n: nat ::
      Observe(Steps(it, a, Start(params, slots, mem), n)) == Observe(Steps(it, b, Start(params, slots, mem), n))
  }

  // ----- definitions, uses, paths -----

  function Defs(i: Instr): seq<Var> {
    match i
    case Call(dst, _, _, _) => [dst]
    case LoadNull(dst, _) => [dst]
    case Op(dst, _, _) => [dst]
    case Phi(dsts, _) => dsts
    case _ => []
  }

  /** The operands read at the instruction itself; those of a phi are read at the end of the predecessor. */
  function Uses(i: Instr): seq<Operand> {
    match i
    case Call(_, _, row, _) => [Of(row)]
    case StoreNull(_, value) => [value]
    case Op(_, _, args) => args
    case Branch(cond, _, _) => [cond]
    case Ret(result) => [result]
    case _ => []
  }

  predicate Edge(code: Code, p: nat, q: nat) {
    p < |code| &&
    match code[p]
    case Jump(target) => q == target
    case Branch(_, yes, no) => q == yes || q == no
    case Ret(_) => false
    case _ => q == p + 1
  }

  predicate Terminates(i: Instr) {
    i.Jump? || i.Branch? || i.Ret?
  }

  /** Where the block that holds u starts. */
  function BlockStart(code: Code, u: nat): (b: nat)
    requires u <= |code|
    ensures b <= u
  {
    if u == 0 || Terminates(code[u - 1]) then u else BlockStart(code, u - 1)
  }

  /** Control is transferred to the beginnings of blocks only. */
  ghost predicate EntersAtStarts(code: Code) {
    forall p: nat, q: nat :: Edge(code, p, q) && Terminates(code[p]) ==> q <= |code| && BlockStart(code, q) == q
  }

  /** A path of the control flow graph from the entry. */
  predicate IsPath(code: Code, path: seq<nat>) {
    path != [] && path[0] == 0 && forall k :: 0 < k < |path| ==> Edge(code, path[k - 1], path[k])
  }

  function Last(path: seq<nat>): nat
    requires path != []
  {
    path[|path| - 1]
  }

  ghost predicate Dom(code: Code, a: nat, b: nat) {
    forall path :: IsPath(code, path) && Last(path) == b ==> a in path
  }

  lemma DomTrans(code: Code, a: nat, b: nat, c: nat)
    requires Dom(code, a, b) && Dom(code, b, c)
    ensures Dom(code, a, c)
  {
    forall path | IsPath(code, path) && Last(path) == c ensures a in path {
      var k :| 0 <= k < |path| && path[k] == b;
      assert IsPath(code, path[..k + 1]) && Last(path[..k + 1]) == b;
    }
  }

  /** On a path to u, a strict dominator of d does not come again after the last d. */
  lemma NotAgain(code: Code, path: seq<nat>, d: nat, e: nat, i: nat)
    requires IsPath(code, path) && Dom(code, d, Last(path)) && Dom(code, e, d) && e != d
    requires i < |path| && path[i] == d && d !in path[i + 1..]
    ensures e !in path[i + 1..]
  {
    if e in path[i + 1..] {
      var k :| i + 1 <= k < |path| && path[k] == e;
      var j := First(path, d);
      assert IsPath(code, path[..j + 1]) && Last(path[..j + 1]) == d;
      var m :| 0 <= m < |path[..j + 1]| && path[..j + 1][m] == e;
      var around := path[..m + 1] + path[k + 1..];
      assert d !in around by {
        forall x | k + 1 <= x < |path| ensures path[x] != d {
          assert path[x] == path[i + 1..][x - i - 1];
        }
      }
      Spliced(code, path, m, k);
      assert false;
    }
  }

  lemma Spliced(code: Code, path: seq<nat>, m: nat, k: nat)
    requires IsPath(code, path) && m <= k < |path| && path[m] == path[k]
    ensures IsPath(code, path[..m + 1] + path[k + 1..]) && Last(path[..m + 1] + path[k + 1..]) == Last(path)
  {
    var around := path[..m + 1] + path[k + 1..];
    forall x | 0 < x < |around| ensures Edge(code, around[x - 1], around[x]) {
      if x > m {
        assert around[x] == path[x + k - m];
        assert around[x - 1] == if x - 1 == m then path[k] else path[x - 1 + k - m];
      }
    }
  }

  lemma First(path: seq<nat>, d: nat) returns (j: nat)
    requires d in path
    ensures j < |path| && path[j] == d && d !in path[..j]
  {
    j := 0;
    while path[j] != d
      invariant j < |path| && d !in path[..j] && d in path[j..]
      decreases |path| - j
    {
      j := j + 1;
    }
  }

  lemma LastOf(path: seq<nat>, d: nat) returns (j: nat)
    requires d in path
    ensures j < |path| && path[j] == d && d !in path[j + 1..]
  {
    j := |path| - 1;
    while path[j] != d
      invariant j < |path| && d !in path[j + 1..] && d in path[..j + 1]
      decreases j
    {
      j := j - 1;
    }
  }

  lemma NotLater(done: seq<nat>, c: nat, j: nat, i: nat)
    requires i < |done| && done[i] == c && j < |done| && c !in done[j + 1..]
    ensures i <= j
  {
  }

  // ----- blocks -----

  lemma {:induction false} WithinBlock(code: Code, r: nat, u: nat)
    requires u <= |code| && BlockStart(code, u) <= r <= u
    ensures BlockStart(code, r) == BlockStart(code, u) && (r < u ==> !Terminates(code[r]))
    decreases u - r
  {
    if r < u {
      WithinBlock(code, r, u - 1);
    } else {
      assert r == u;
    }
  }

  /** A path to p goes through all of p's block before p. */
  lemma {:induction false} Through(code: Code, path: seq<nat>, u: nat)
    requires EntersAtStarts(code) && IsPath(code, path) && Last(path) <= |code|
    requires BlockStart(code, Last(path)) <= u <= Last(path)
    ensures u in path
    decreases Last(path) - u
  {
    var p, n := Last(path), |path| - 1;
    if u == p {
      assert path[n] == u;
    } else {
      WithinBlock(code, p - 1, p);
      assert n > 0 && Edge(code, path[n - 1], path[n]);
      assert path[n - 1] == p - 1;
      assert IsPath(code, path[..n]) && Last(path[..n]) == p - 1;
      Through(code, path[..n], u);
    }
  }

  /** A path to p can be continued within p's block. */
  lemma {:induction false} Along(code: Code, path: seq<nat>, u: nat) returns (path': seq<nat>)
    requires IsPath(code, path) && Last(path) <= u < |code| && BlockStart(code, u) <= Last(path)
    ensures IsPath(code, path') && Last(path') == u
    ensures forall x :: x in path' ==> x in path || Last(path) < x <= u
    decreases u - Last(path)
  {
    var p := Last(path);
    if p == u {
      path' := path;
    } else {
      WithinBlock(code, p, u);
      var next := path + [p + 1];
      assert IsPath(code, next) by {
        forall k | 0 < k < |next| ensures Edge(code, next[k - 1], next[k]) {
          assert k < |path| ==> next[k] == path[k];
        }
      }
      path' := Along(code, next, u);
    }
  }
}
