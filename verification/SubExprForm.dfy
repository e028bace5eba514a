/** The code that be/src/codegen/subexpr-elimination.cc rewrites, and what the rewriting asks of it.

    Generated code calls an expression function with a row and a stack slot, and then loads the slot:
    the value of the expression is the result of the call, and it is NULL if the slot holds true.
    The calls of an expression's children get the slot of the expression itself
    (be/src/exprs/expr.cc:671-677), so a slot is in general shared, and the parent loads it once more.
 */
module SubExprForm {
  import opened CodegenIr
  import opened CodegenRuns

  predicate IsCall(code: Code, p: int) {
    0 <= p < |code| && code[p].Call?
  }

  predicate SameKey(code: Code, p: int, q: int) {
    IsCall(code, p) && IsCall(code, q) && code[p].fn == code[q].fn && code[p].row == code[q].row
  }

  /** The first call in the code with its function and row. */
  ghost predicate FirstCall(code: Code, d: int) {
    IsCall(code, d) && forall r :: r < d ==> !SameKey(code, r, d)
  }

  /** The call at q repeats the one at p, the first in the code with its function and row. */
  ghost predicate Repeats(code: Code, p: int, q: int) {
    p < q && SameKey(code, p, q) && FirstCall(code, p)
  }

  // ----- the form of the code -----

  ghost predicate SingleDefs(code: Code) {
    forall p, q, x :: 0 <= p < |code| && 0 <= q < |code| && x in Defs(code[p]) && x in Defs(code[q]) ==> p == q
  }

  /** The phis at u read x when control comes from f. */
  predicate FlowsIn(code: Code, u: int, f: int, x: Var) {
    0 <= u < |code| && code[u].Phi? && f in code[u].incoming && x in code[u].incoming[f]
  }

  /** A value that is assigned at d and used at u is assigned on every path to u. */
  ghost predicate DominatesUse(code: Code, d: nat, u: nat, x: Var) {
    d < |code| && u < |code| && x in Defs(code[d]) && Of(x) in Uses(code[u]) ==> d != u && Dom(code, d, u)
  }

  /** Results of first calls aside: the updater lets them be used also where other paths lead to. */
  ghost predicate DefsDominateUses(code: Code) {
    forall d: nat, u, x :: FirstCall(code, d) || DominatesUse(code, d, u, x)
  }

  ghost predicate DominatesFlow(code: Code, d: nat, u: int, f: int, x: Var) {
    d < |code| && x in Defs(code[d]) && FlowsIn(code, u, f, x) ==> 0 <= f && Dom(code, d, f)
  }

  ghost predicate DefsDominateFlows(code: Code) {
    forall d: nat, u, f, x :: FirstCall(code, d) || DominatesFlow(code, d, u, f, x)
  }

  /** Rows are not results of slot references. */
  ghost predicate RowsApart(code: Code) {
    forall p, q :: IsCall(code, p) && IsCall(code, q) ==> code[p].row != code[q].dst
  }

  /** From instruction `from` on a call is followed by the load of its slot.  The code of a compound predicate,
      be/src/exprs/compound-predicate.cc:233-239, is not of this form: it has two calls and then two loads. */
  ghost predicate FollowedByLoad(code: Code, from: nat) {
    forall p :: IsCall(code, p) && from <= p ==>
      p + 1 < |code| && code[p + 1].LoadNull? && code[p + 1].slot == code[p].slot
  }

  ghost predicate Reached(code: Code, u: nat) {
    exists path :: IsPath(code, path) && Last(path) == u
  }

  /** Code that can be reached has operands without further ado. */
  ghost predicate Plain(code: Code) {
    forall u, x :: 0 <= u < |code| && LiveIn(x) in Uses(code[u]) ==> !Reached(code, u)
  }

  /** Valid SSA code with registered calls as CodegenGetValue emits them. */
  ghost predicate Formed(code: Code, from: nat) {
    && SingleDefs(code) && DefsDominateUses(code) && DefsDominateFlows(code) && EntersAtStarts(code)
    && RowsApart(code) && FollowedByLoad(code, from) && Plain(code)
  }

  // ----- what the pass needs beyond that -----

  /** Since the last time c was executed, x has not been assigned. */
  ghost predicate Fresh(code: Code, done: seq<nat>, c: nat, x: Var) {
    exists i :: 0 <= i < |done| && done[i] == c && forall k :: i < k < |done| ==> !Assigns(code, done[k], x)
  }

  /** Wherever control comes from, p has been called with the row that q is called with. */
  ghost predicate FirstCalled(code: Code, p: nat, q: nat)
    requires IsCall(code, p)
  {
    forall path :: Feasible(code, path) && Last(path) == q ==> Fresh(code, path, p, code[p].row)
  }

  predicate SameBlock(code: Code, a: nat, b: nat) {
    a <= |code| && b <= |code| && BlockStart(code, a) == BlockStart(code, b)
  }

  /** The result of a repeated call is not used in the block of the first call. */
  ghost predicate UsedElsewhere(code: Code, p: nat, q: nat)
    requires IsCall(code, q)
  {
    forall u :: 0 <= u < |code| && Of(code[q].dst) in Uses(code[u]) && Reached(code, u) ==> !SameBlock(code, u, p)
  }

  /** The last write of a slot on a path, before its end. */
  ghost predicate LastWrite(code: Code, path: seq<nat>, i: int, slot: Slot) {
    && 0 <= i < |path| - 1 && Writes(code, path[i], slot)
    && forall k :: i < k < |path| - 1 ==> !Writes(code, path[k], slot)
  }

  /** The slot of p was last written by a call with p's function and row. */
  ghost predicate WrittenAlike(code: Code, path: seq<nat>, p: nat)
    requires IsCall(code, p)
  {
    exists i :: LastWrite(code, path, i, code[p].slot) && SameKey(code, path[i], p)
  }

  /** The slot was found to hold false, and has not been written since. */
  ghost predicate StillFalse(code: Code, path: seq<nat>, slot: Slot) {
    exists m :: FoundFalse(code, path, m, slot) && forall k :: m < k < |path| - 1 ==> !Writes(code, path[k], slot)
  }

  /** So was the flag of p, when p was called last. */
  ghost predicate WasFalse(code: Code, path: seq<nat>, p: nat)
    requires IsCall(code, p)
  {
    exists j :: 0 <= j < |path| && path[j] == p && FoundFalse(code, path, j + 1, code[p].slot) &&
                forall k :: j < k < |path| ==> path[k] != p
  }

  /** At the end of the path the slot of p holds what p would write there. */
  ghost predicate HoldsFlag(code: Code, path: seq<nat>, p: nat)
    requires IsCall(code, p)
  {
    WrittenAlike(code, path, p) || (StillFalse(code, path, code[p].slot) && WasFalse(code, path, p))
  }

  /** Wherever control comes from, at q the slot of p holds what p would write there. */
  ghost predicate FlagKept(code: Code, p: nat, q: nat)
    requires IsCall(code, p)
  {
    forall path :: Feasible(code, path) && Last(path) == q ==> HoldsFlag(code, path, p)
  }

  /** At l the slot is read: by a load, or by the one behind a repeated call once it is replaced. */
  ghost predicate Reads(code: Code, l: nat, slot: Slot) {
    || (l < |code| && code[l].LoadNull? && code[l].slot == slot)
    || (exists p :: Repeats(code, p, l) && code[p].slot == slot)
  }

  ghost predicate WrittenBetween(code: Code, path: seq<nat>, i: int, slot: Slot) {
    exists k :: 0 <= i < k < |path| - 1 && Writes(code, path[k], slot)
  }

  /** The path goes from q, at step i, to a read of q's slot other than by q's own load. */
  ghost predicate ReadAgain(code: Code, path: seq<nat>, i: int, q: nat)
    requires IsCall(code, q)
  {
    Feasible(code, path) && 0 <= i < |path| - 1 && path[i] == q && Last(path) != q + 1 &&
    Reads(code, Last(path), code[q].slot)
  }

  /** The slot of q is that of p, or it is written before it is read again. */
  ghost predicate SlotFree(code: Code, p: nat, q: nat)
    requires IsCall(code, p) && IsCall(code, q)
  {
    code[p].slot != code[q].slot ==>
      forall path, i :: ReadAgain(code, path, i, q) ==> WrittenBetween(code, path, i, code[q].slot)
  }

  ghost predicate Replaceable(code: Code, p: nat, q: nat)
    requires IsCall(code, p) && IsCall(code, q)
  {
    FirstCalled(code, p, q) && UsedElsewhere(code, p, q) && FlagKept(code, p, q) && SlotFree(code, p, q)
  }

  /** The code on which the pass keeps the meaning.  The code generator does not guarantee it. */
  ghost predicate Eliminable(code: Code, from: nat) {
    Formed(code, from) && forall p, q :: Repeats(code, p, q) && from <= q ==> Replaceable(code, p, q)
  }

  // ----- one replacement -----

  function Renamed(x: Var, src: Var, dst: Var): Var {
    if x == dst then src else x
  }

  function RenamedAll(xs: seq<Var>, src: Var, dst: Var): (ys: seq<Var>)
    ensures |ys| == |xs| && forall i :: 0 <= i < |xs| ==> ys[i] == Renamed(xs[i], src, dst)
  {
    seq(|xs|, i requires 0 <= i < |xs| => Renamed(xs[i], src, dst))
  }

  /** What the updater makes of an operand; `local` says that it is in the block of src. */
  function Rewritten(o: Operand, local: bool, src: Var, dst: Var): Operand {
    match o
    case Of(x) => if x != dst then o else if local then LiveIn(src) else Of(src)
    case LiveIn(x) => LiveIn(Renamed(x, src, dst))
  }

  function RewrittenAll(os: seq<Operand>, local: bool, src: Var, dst: Var): (r: seq<Operand>)
    ensures |r| == |os| && forall i :: 0 <= i < |os| ==> r[i] == Rewritten(os[i], local, src, dst)
  {
    seq(|os|, i requires 0 <= i < |os| => Rewritten(os[i], local, src, dst))
  }

  /** The instruction after the updater has rewritten the uses of dst.  Operands of a phi are uses at the
      end of a predecessor, where the result of src is available also if that is its own block. */
  function RewriteUses(i: Instr, local: bool, src: Var, dst: Var): Instr {
    match i
    case StoreNull(slot, value) => StoreNull(slot, Rewritten(value, local, src, dst))
    case Op(d, op, args) => Op(d, op, RewrittenAll(args, local, src, dst))
    case Phi(dsts, incoming) => Phi(dsts, map f | f in incoming :: RenamedAll(incoming[f], src, dst))
    case Branch(cond, yes, no) => Branch(Rewritten(cond, local, src, dst), yes, no)
    case Ret(result) => Ret(Rewritten(result, local, src, dst))
    case _ => i
  }

  /** Which instructions are in the block of p. */
  function Locals(code: Code, p: nat): (ls: seq<bool>)
    ensures |ls| == |code| && forall k :: 0 <= k < |code| ==> ls[k] == SameBlock(code, k, p)
  {
    seq(|code|, k requires 0 <= k < |code| => SameBlock(code, k, p))
  }

  /** The code after the call at q has been replaced by the one at p. */
  function Replaced(code: Code, p: nat, q: nat): Code
    requires IsCall(code, p) && IsCall(code, q) && q + 1 < |code| && code[q + 1].LoadNull?
  {
    ReplacedWith(code, p, q, Locals(code, p))
  }

  /** The same for any instructions that count as local. */
  function ReplacedWith(code: Code, p: nat, q: nat, ls: seq<bool>): (r: Code)
    requires IsCall(code, p) && IsCall(code, q) && q + 1 < |code| && code[q + 1].LoadNull? && |ls| == |code|
    ensures |r| == |code|
  {
    seq(|code|, k requires 0 <= k < |code| =>
      if k == q then Erased
      else if k == q + 1 then LoadNull(code[q + 1].dst, code[p].slot)
      else RewriteUses(code[k], ls[k], code[p].dst, code[q].dst))
  }
}
