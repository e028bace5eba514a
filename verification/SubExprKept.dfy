/** What stays true of the code when a repeated call of be/src/codegen/subexpr-elimination.cc is replaced. */
module SubExprKept {
  import opened CodegenIr
  import opened CodegenRuns
  import opened SubExprForm

  lemma SameDominators(code: Code, other: Code, a: nat, b: nat)
    requires forall x, y :: Edge(code, x, y) == Edge(other, x, y)
    requires Dom(code, a, b)
    ensures Dom(other, a, b)
  {
    forall path | IsPath(other, path) && Last(path) == b ensures a in path {
      assert IsPath(code, path);
    }
  }

  /** The call at q, with its load, and another call p. */
  ghost predicate Pair(code: Code, p: nat, q: nat, ls: seq<bool>) {
    && |ls| == |code|
    && IsCall(code, p) && IsCall(code, q) && q + 1 < |code| && code[q + 1].LoadNull? && code[q + 1].slot == code[q].slot
    && SingleDefs(code) && code[p].dst != code[q].dst
  }

  lemma RepeatsPair(code: Code, p: nat, q: nat)
    requires Eliminable(code, q) && Repeats(code, p, q)
    ensures Pair(code, p, q, Locals(code, p))
  {
    assert code[p].dst in Defs(code[p]) && code[q].dst in Defs(code[q]);
  }

  lemma ReplacedDefs(code: Code, p: nat, q: nat, ls: seq<bool>)
    requires Pair(code, p, q, ls)
    ensures forall k :: 0 <= k < |code| ==>
              Defs(ReplacedWith(code, p, q, ls)[k]) == if k == q then [] else Defs(code[k])
    ensures forall k: nat, j: nat :: Edge(code, k, j) == Edge(ReplacedWith(code, p, q, ls), k, j)
  {
  }

  /** What an operand of a rewritten instruction was before. */
  lemma RewrittenUses(i: Instr, local: bool, src: Var, dst: Var, o: Operand)
    requires src != dst && o in Uses(RewriteUses(i, local, src, dst)) && !i.Call?
    ensures o.Of? ==> (o in Uses(i) && o.x != dst) || (o.x == src && Of(dst) in Uses(i))
    ensures o.LiveIn? ==> (exists y :: LiveIn(y) in Uses(i)) || (Of(dst) in Uses(i) && local)
  {
    var j :| 0 <= j < |Uses(i)| && Rewritten(Uses(i)[j], local, src, dst) == o;
    var was := Uses(i)[j];
    assert was in Uses(i);
    assert was.LiveIn? ==> LiveIn(was.x) in Uses(i);
  }

  lemma ReplacedUses(code: Code, p: nat, q: nat, ls: seq<bool>, u: nat, x: Var)
    requires Pair(code, p, q, ls) && RowsApart(code) && u < |code| &&
             Of(x) in Uses(ReplacedWith(code, p, q, ls)[u])
    ensures (Of(x) in Uses(code[u]) && x != code[q].dst) || (x == code[p].dst && Of(code[q].dst) in Uses(code[u]))
  {
    if !code[u].Call? && u != q + 1 {
      RewrittenUses(code[u], ls[u], code[p].dst, code[q].dst, Of(x));
    }
  }

  lemma ReplacedLiveIns(code: Code, p: nat, q: nat, ls: seq<bool>, u: nat, x: Var)
    requires Pair(code, p, q, ls) && u < |code| && LiveIn(x) in Uses(ReplacedWith(code, p, q, ls)[u])
    ensures (exists y :: LiveIn(y) in Uses(code[u])) || (Of(code[q].dst) in Uses(code[u]) && ls[u])
  {
    RewrittenUses(code[u], ls[u], code[p].dst, code[q].dst, LiveIn(x));
  }

  lemma ReplacedFlows(code: Code, p: nat, q: nat, ls: seq<bool>, u: int, f: int, x: Var)
    requires Pair(code, p, q, ls) && FlowsIn(ReplacedWith(code, p, q, ls), u, f, x)
    ensures (FlowsIn(code, u, f, x) && x != code[q].dst) || (x == code[p].dst && FlowsIn(code, u, f, code[q].dst))
  {
    var xs := code[u].incoming[f];
    var j :| 0 <= j < |xs| && Renamed(xs[j], code[p].dst, code[q].dst) == x;
    assert xs[j] in xs;
  }

  lemma {:induction false} SameStarts(code: Code, p: nat, q: nat, ls: seq<bool>, u: nat)
    requires Pair(code, p, q, ls) && u <= |code|
    ensures BlockStart(ReplacedWith(code, p, q, ls), u) == BlockStart(code, u)
  {
    if u > 0 {
      SameStarts(code, p, q, ls, u - 1);
    } else {
      assert BlockStart(code, u) == u;
    }
  }

  lemma KeepsEntries(code: Code, p: nat, q: nat, ls: seq<bool>)
    requires Pair(code, p, q, ls) && EntersAtStarts(code)
    ensures EntersAtStarts(ReplacedWith(code, p, q, ls))
  {
    var r := ReplacedWith(code, p, q, ls);
    ReplacedDefs(code, p, q, ls);
    forall a: nat, b: nat | Edge(r, a, b) && Terminates(r[a]) ensures b <= |r| && BlockStart(r, b) == b {
      assert Edge(code, a, b) && Terminates(code[a]);
      SameStarts(code, p, q, ls, b);
    }
  }

  lemma SamePath(code: Code, p: nat, q: nat, ls: seq<bool>, path: seq<nat>)
    requires Pair(code, p, q, ls) && IsPath(ReplacedWith(code, p, q, ls), path)
    ensures IsPath(code, path)
  {
    ReplacedDefs(code, p, q, ls);
  }

  lemma ReplacedCalls(code: Code, p: nat, q: nat, ls: seq<bool>, k: int)
    requires Pair(code, p, q, ls)
    ensures IsCall(ReplacedWith(code, p, q, ls), k) == (IsCall(code, k) && k != q)
    ensures IsCall(code, k) && k != q ==> ReplacedWith(code, p, q, ls)[k] == code[k]
  {
  }

  lemma KeepsSingleDefs(code: Code, p: nat, q: nat, ls: seq<bool>)
    requires Pair(code, p, q, ls) && RowsApart(code)
    ensures SingleDefs(ReplacedWith(code, p, q, ls)) && RowsApart(ReplacedWith(code, p, q, ls))
  {
    var r := ReplacedWith(code, p, q, ls);
    ReplacedDefs(code, p, q, ls);
    forall a, b | IsCall(r, a) && IsCall(r, b) ensures r[a].row != r[b].dst {
      ReplacedCalls(code, p, q, ls, a);
      ReplacedCalls(code, p, q, ls, b);
    }
  }

  lemma SameKeyReplaced(code: Code, p: nat, q: nat, ls: seq<bool>, a: int, b: int)
    requires Pair(code, p, q, ls)
    ensures SameKey(ReplacedWith(code, p, q, ls), a, b) == (SameKey(code, a, b) && a != q && b != q)
  {
    ReplacedCalls(code, p, q, ls, a);
    ReplacedCalls(code, p, q, ls, b);
  }

  lemma SameFirst(code: Code, p: nat, q: nat, ls: seq<bool>, d: int)
    requires Pair(code, p, q, ls) && Repeats(code, p, q)
    ensures FirstCall(ReplacedWith(code, p, q, ls), d) <==> FirstCall(code, d)
  {
    var r := ReplacedWith(code, p, q, ls);
    ReplacedCalls(code, p, q, ls, d);
    forall c ensures SameKey(r, c, d) == (SameKey(code, c, d) && c != q && d != q) {
      SameKeyReplaced(code, p, q, ls, c, d);
    }
    if FirstCall(r, d) {
      forall c | c < d ensures !SameKey(code, c, d) {
        assert c == q && SameKey(code, c, d) ==> SameKey(r, p, d);
      }
    }
  }

  /** A value other than the results of first calls is used where it was. */
  lemma KeepsUse(code: Code, p: nat, q: nat, ls: seq<bool>, d: nat, u: nat, x: Var)
    requires Pair(code, p, q, ls) && RowsApart(code) && DefsDominateUses(code) && !FirstCall(code, d) &&
             FirstCall(code, p)
    ensures DominatesUse(ReplacedWith(code, p, q, ls), d, u, x)
  {
    var r := ReplacedWith(code, p, q, ls);
    ReplacedDefs(code, p, q, ls);
    if d < |r| && u < |r| && x in Defs(r[d]) && Of(x) in Uses(r[u]) {
      ReplacedUses(code, p, q, ls, u, x);
      assert code[p].dst in Defs(code[p]) && DominatesUse(code, d, u, x);
      SameDominators(code, r, d, u);
    }
  }

  lemma KeepsFlow(code: Code, p: nat, q: nat, ls: seq<bool>, d: nat, u: int, f: int, x: Var)
    requires Pair(code, p, q, ls) && DefsDominateFlows(code) && !FirstCall(code, d) && FirstCall(code, p)
    ensures DominatesFlow(ReplacedWith(code, p, q, ls), d, u, f, x)
  {
    var r := ReplacedWith(code, p, q, ls);
    ReplacedDefs(code, p, q, ls);
    if d < |r| && x in Defs(r[d]) && FlowsIn(r, u, f, x) {
      ReplacedFlows(code, p, q, ls, u, f, x);
      assert code[p].dst in Defs(code[p]) && DominatesFlow(code, d, u, f, x);
      SameDominators(code, r, d, f);
    }
  }

  lemma KeepsUses(code: Code, p: nat, q: nat, ls: seq<bool>)
    requires Pair(code, p, q, ls) && Repeats(code, p, q) && RowsApart(code)
    requires DefsDominateUses(code) && DefsDominateFlows(code)
    ensures DefsDominateUses(ReplacedWith(code, p, q, ls)) && DefsDominateFlows(ReplacedWith(code, p, q, ls))
  {
    var r := ReplacedWith(code, p, q, ls);
    forall d: nat, u: nat, x ensures FirstCall(r, d) || DominatesUse(r, d, u, x) {
      SameFirst(code, p, q, ls, d);
      if !FirstCall(code, d) {
        KeepsUse(code, p, q, ls, d, u, x);
      }
    }
    forall d: nat, u, f, x ensures FirstCall(r, d) || DominatesFlow(r, d, u, f, x) {
      SameFirst(code, p, q, ls, d);
      if !FirstCall(code, d) {
        KeepsFlow(code, p, q, ls, d, u, f, x);
      }
    }
  }

  lemma RepeatsBefore(code: Code, p: nat, q: nat, ls: seq<bool>, a: int, b: int)
    requires Pair(code, p, q, ls) && Repeats(code, p, q)
    ensures Repeats(ReplacedWith(code, p, q, ls), a, b) ==> Repeats(code, a, b) && a != q && b != q && b != p
  {
    var r := ReplacedWith(code, p, q, ls);
    if Repeats(r, a, b) {
      SameKeyReplaced(code, p, q, ls, a, b);
      SameFirst(code, p, q, ls, a);
    }
  }

  lemma KeepsLoads(code: Code, p: nat, q: nat, ls: seq<bool>)
    requires Pair(code, p, q, ls) && FollowedByLoad(code, q)
    ensures FollowedByLoad(ReplacedWith(code, p, q, ls), q + 2)
  {
    var r := ReplacedWith(code, p, q, ls);
    forall c | IsCall(r, c) && q + 2 <= c ensures c + 1 < |r| && r[c + 1].LoadNull? && r[c + 1].slot == r[c].slot {
      ReplacedCalls(code, p, q, ls, c);
    }
  }

  // ----- the conditions on the other repeated calls -----

  lemma SameReached(code: Code, p: nat, q: nat, ls: seq<bool>, u: nat)
    requires Pair(code, p, q, ls) && Reached(ReplacedWith(code, p, q, ls), u)
    ensures Reached(code, u)
  {
    var path :| IsPath(ReplacedWith(code, p, q, ls), path) && Last(path) == u;
    SamePath(code, p, q, ls, path);
  }

  lemma KeepsUsedElsewhere(code: Code, p: nat, q: nat, ls: seq<bool>, a: nat, b: nat)
    requires Pair(code, p, q, ls) && RowsApart(code) && Repeats(code, p, q)
    requires Repeats(code, a, b) && b != q && b != p && a != q && UsedElsewhere(code, a, b)
    ensures IsCall(ReplacedWith(code, p, q, ls), b) && UsedElsewhere(ReplacedWith(code, p, q, ls), a, b)
  {
    var r := ReplacedWith(code, p, q, ls);
    ReplacedCalls(code, p, q, ls, b);
    forall u | 0 <= u < |r| && Of(r[b].dst) in Uses(r[u]) && Reached(r, u) ensures !SameBlock(r, u, a) {
      assert code[b].dst in Defs(code[b]) && code[p].dst in Defs(code[p]);
      ReplacedUses(code, p, q, ls, u, code[b].dst);
      SameReached(code, p, q, ls, u);
      SameStarts(code, p, q, ls, u);
      SameStarts(code, p, q, ls, a);
    }
  }

  lemma SameWrites(code: Code, p: nat, q: nat, ls: seq<bool>, k: nat, slot: Slot)
    requires Pair(code, p, q, ls)
    ensures Writes(ReplacedWith(code, p, q, ls), k, slot) <==> Writes(code, k, slot) && k != q
  {
  }

  lemma SameTests(code: Code, p: nat, q: nat, ls: seq<bool>, l: nat, slot: Slot)
    requires Pair(code, p, q, ls) && Tests(code, l, slot) && (l == q + 1 ==> code[p].slot == slot)
    ensures var r := ReplacedWith(code, p, q, ls);
            Tests(r, l, slot) && r[l + 1].no == code[l + 1].no
  {
    assert code[l].dst in Defs(code[l]) && code[q].dst in Defs(code[q]);
  }

  lemma LoadAfter(code: Code, path: seq<nat>, m: nat, q: nat)
    requires EntersAtStarts(code) && IsPath(code, path) && IsCall(code, q) && m < |path| && path[m] == q + 1
    ensures m > 0 && path[m - 1] == q
  {
    assert BlockStart(code, q + 1) <= q;
    assert m > 0 && Edge(code, path[m - 1], path[m]);
  }

  /** A contradiction between tests does not go away. */
  lemma StillContradicts(code: Code, p: nat, q: nat, ls: seq<bool>, path: seq<nat>, m: int, n: int, slot: Slot)
    requires Pair(code, p, q, ls) && EntersAtStarts(code) && SlotFree(code, p, q)
    requires IsPath(code, path) && Contradicts(code, path, m, n, slot) && Feasible(code, path[..n + 1])
    ensures Contradicts(ReplacedWith(code, p, q, ls), path, m, n, slot)
  {
    if path[n] == q + 1 {
      LoadAfter(code, path, n, q);
      assert Writes(code, path[n - 1], slot);
      assert false;
    }
    if path[m] == q + 1 && code[p].slot != slot {
      LoadAfter(code, path, m, q);
      NotReadBetween(code, p, q, path, m, n);
      assert false;
    }
    SameTests(code, p, q, ls, path[m], slot);
    SameTests(code, p, q, ls, path[n], slot);
    forall k | m < k < n ensures !Writes(ReplacedWith(code, p, q, ls), path[k], slot) {
      SameWrites(code, p, q, ls, path[k], slot);
    }
  }

  lemma NotReadBetween(code: Code, p: nat, q: nat, path: seq<nat>, m: nat, n: nat)
    requires IsCall(code, p) && IsCall(code, q) && SlotFree(code, p, q) && code[p].slot != code[q].slot
    requires 0 < m < n < |path| && path[m - 1] == q && path[n] != q + 1 && Reads(code, path[n], code[q].slot)
    requires Feasible(code, path[..n + 1]) && !Writes(code, path[m], code[q].slot)
    ensures exists k :: m < k < n && Writes(code, path[k], code[q].slot)
  {
    var upTo := path[..n + 1];
    assert ReadAgain(code, upTo, m - 1, q);
    var k :| m - 1 < k < |upTo| - 1 && Writes(code, upTo[k], code[q].slot);
    assert upTo[k] == path[k] && upTo[m] == path[m];
  }

  /** A path that is feasible in the code with the call replaced was so before. */
  lemma {:induction false} FeasibleBefore(code: Code, p: nat, q: nat, ls: seq<bool>, path: seq<nat>)
    requires Pair(code, p, q, ls) && EntersAtStarts(code) && SlotFree(code, p, q)
    requires Feasible(ReplacedWith(code, p, q, ls), path)
    ensures Feasible(code, path)
    decreases |path|
  {
    var r := ReplacedWith(code, p, q, ls);
    SamePath(code, p, q, ls, path);
    forall m, n, slot ensures !Contradicts(code, path, m, n, slot) {
      if Contradicts(code, path, m, n, slot) {
        FeasiblePrefix(r, path, n + 1);
        FeasibleBefore(code, p, q, ls, path[..n + 1]);
        StillContradicts(code, p, q, ls, path, m, n, slot);
        assert false;
      }
    }
  }

  lemma KeepsFirstCalled(code: Code, p: nat, q: nat, ls: seq<bool>, a: nat, b: nat)
    requires Pair(code, p, q, ls) && EntersAtStarts(code) && SlotFree(code, p, q)
    requires IsCall(code, a) && a != q && FirstCalled(code, a, b)
    ensures IsCall(ReplacedWith(code, p, q, ls), a) && FirstCalled(ReplacedWith(code, p, q, ls), a, b)
  {
    var r := ReplacedWith(code, p, q, ls);
    ReplacedCalls(code, p, q, ls, a);
    ReplacedDefs(code, p, q, ls);
    forall path | Feasible(r, path) && Last(path) == b ensures Fresh(r, path, a, r[a].row) {
      FeasibleBefore(code, p, q, ls, path);
      assert Fresh(code, path, a, code[a].row);
    }
  }

  /** The flag stays where it is when nothing is written. */
  lemma HoldsOn(code: Code, path: seq<nat>, i: nat, p: nat)
    requires IsCall(code, p) && i < |path| - 1 && HoldsFlag(code, path[..i + 1], p) && Last(path) != p
    requires forall k :: i <= k < |path| - 1 ==> !Writes(code, path[k], code[p].slot)
    ensures HoldsFlag(code, path, p)
  {
    var upTo, slot := path[..i + 1], code[p].slot;
    if WrittenAlike(code, upTo, p) {
      var w :| LastWrite(code, upTo, w, slot) && SameKey(code, upTo[w], p);
      assert LastWrite(code, path, w, slot) && path[w] == upTo[w];
    } else {
      StillFalseOn(code, path, i, slot);
      WasFalseOn(code, path, i, p);
    }
  }

  lemma StillFalseOn(code: Code, path: seq<nat>, i: nat, slot: Slot)
    requires i < |path| - 1 && StillFalse(code, path[..i + 1], slot)
    requires forall k :: i <= k < |path| - 1 ==> !Writes(code, path[k], slot)
    ensures StillFalse(code, path, slot)
  {
    var upTo := path[..i + 1];
    var m :| FoundFalse(code, upTo, m, slot) && forall k :: m < k < |upTo| - 1 ==> !Writes(code, upTo[k], slot);
    assert FoundFalse(code, path, m, slot);
    forall k | m < k < |path| - 1 ensures !Writes(code, path[k], slot) {
      assert k < i ==> upTo[k] == path[k];
    }
  }

  lemma WasFalseOn(code: Code, path: seq<nat>, i: nat, p: nat)
    requires IsCall(code, p) && i < |path| - 1 && WasFalse(code, path[..i + 1], p) && Last(path) != p
    requires forall k :: i <= k < |path| - 1 ==> !Writes(code, path[k], code[p].slot)
    ensures WasFalse(code, path, p)
  {
    var upTo, slot := path[..i + 1], code[p].slot;
    var j :| 0 <= j < |upTo| && upTo[j] == p && FoundFalse(code, upTo, j + 1, slot) &&
             forall k :: j < k < |upTo| ==> upTo[k] != p;
    assert FoundFalse(code, path, j + 1, slot) && path[j] == p && Writes(code, p, slot);
    forall k | j < k < |path| ensures path[k] != p {
      assert k <= i ==> upTo[k] == path[k];
    }
  }

  /** A path to a read of the slot of a, a first call. */
  ghost predicate FirstRead(code: Code, path: seq<nat>, a: nat, q: nat)
    requires IsCall(code, a)
  {
    && Feasible(code, path) && Last(path) != q + 1 && Last(path) != a && Reads(code, Last(path), code[a].slot)
    && forall c :: c < a ==> !SameKey(code, c, a)
  }

  lemma SameStillFalse(code: Code, p: nat, q: nat, ls: seq<bool>, path: seq<nat>, m: nat, slot: Slot)
    requires Pair(code, p, q, ls) && FoundFalse(code, path, m, slot) && (path[m] == q + 1 ==> code[p].slot == slot)
    requires forall k :: m < k < |path| - 1 ==> !Writes(code, path[k], slot)
    ensures StillFalse(ReplacedWith(code, p, q, ls), path, slot)
  {
    var r := ReplacedWith(code, p, q, ls);
    SameTests(code, p, q, ls, path[m], slot);
    assert FoundFalse(r, path, m, slot);
    forall k | m < k < |path| - 1 ensures !Writes(r, path[k], slot) {
      SameWrites(code, p, q, ls, path[k], slot);
    }
  }

  lemma KeepsStillFalse(code: Code, p: nat, q: nat, ls: seq<bool>, path: seq<nat>, slot: Slot)
    requires Pair(code, p, q, ls) && SlotFree(code, p, q) && EntersAtStarts(code)
    requires Feasible(code, path) && Last(path) != q + 1 && Reads(code, Last(path), slot) &&
             StillFalse(code, path, slot)
    ensures StillFalse(ReplacedWith(code, p, q, ls), path, slot)
  {
    var m :| FoundFalse(code, path, m, slot) && forall k :: m < k < |path| - 1 ==> !Writes(code, path[k], slot);
    if path[m] == q + 1 && code[p].slot != slot {
      LoadAfter(code, path, m, q);
      assert path[..|path|] == path;
      NotReadBetween(code, p, q, path, m, |path| - 1);
      assert false;
    }
    SameStillFalse(code, p, q, ls, path, m, slot);
  }

  lemma KeepsWasFalse(code: Code, p: nat, q: nat, ls: seq<bool>, path: seq<nat>, a: nat)
    requires Pair(code, p, q, ls) && EntersAtStarts(code) && IsPath(code, path)
    requires IsCall(code, a) && a != q && WasFalse(code, path, a)
    ensures IsCall(ReplacedWith(code, p, q, ls), a) && WasFalse(ReplacedWith(code, p, q, ls), path, a)
  {
    var r, slot := ReplacedWith(code, p, q, ls), code[a].slot;
    ReplacedCalls(code, p, q, ls, a);
    var j :| 0 <= j < |path| && path[j] == a && FoundFalse(code, path, j + 1, slot) &&
             forall k :: j < k < |path| ==> path[k] != a;
    assert Edge(code, path[j], path[j + 1]);
    SameTests(code, p, q, ls, path[j + 1], slot);
    assert FoundFalse(r, path, j + 1, slot);
  }

  lemma NoneWritten(code: Code, p: nat, q: nat, ls: seq<bool>, path: seq<nat>, i: nat, slot: Slot)
    requires Pair(code, p, q, ls) && LastWrite(code, path, i, slot)
    ensures forall k :: i < k < |path| - 1 || (k == i && path[i] == q) ==>
              !Writes(ReplacedWith(code, p, q, ls), path[k], slot)
  {
    forall k | i < k < |path| - 1 || (k == i && path[i] == q)
      ensures !Writes(ReplacedWith(code, p, q, ls), path[k], slot)
    {
      SameWrites(code, p, q, ls, path[k], slot);
    }
  }

  lemma KeepsWritten(code: Code, p: nat, q: nat, ls: seq<bool>, path: seq<nat>, a: nat, i: nat)
    requires Pair(code, p, q, ls) && IsCall(code, a) && a != q
    requires LastWrite(code, path, i, code[a].slot) && SameKey(code, path[i], a) && path[i] != q
    ensures IsCall(ReplacedWith(code, p, q, ls), a) && WrittenAlike(ReplacedWith(code, p, q, ls), path, a)
  {
    ReplacedCalls(code, p, q, ls, a);
    NoneWritten(code, p, q, ls, path, i, code[a].slot);
    SameKeyReplaced(code, p, q, ls, path[i], a);
    SameWrites(code, p, q, ls, path[i], code[a].slot);
    assert LastWrite(ReplacedWith(code, p, q, ls), path, i, code[a].slot);
  }

  lemma HoldsBehind(code: Code, p: nat, q: nat, ls: seq<bool>, path: seq<nat>, i: nat)
    requires Pair(code, p, q, ls) && p != q && LastWrite(code, path, i, code[p].slot) && path[i] == q && Last(path) != p
    requires IsCall(ReplacedWith(code, p, q, ls), p) && HoldsFlag(ReplacedWith(code, p, q, ls), path[..i + 1], p)
    ensures HoldsFlag(ReplacedWith(code, p, q, ls), path, p)
  {
    ReplacedCalls(code, p, q, ls, p);
    NoneWritten(code, p, q, ls, path, i, code[p].slot);
    HoldsOn(ReplacedWith(code, p, q, ls), path, i, p);
  }

  lemma {:induction false} KeepsHolds(code: Code, p: nat, q: nat, ls: seq<bool>, path: seq<nat>, a: nat)
    requires Pair(code, p, q, ls) && EntersAtStarts(code) && Repeats(code, p, q)
    requires FlagKept(code, p, q) && SlotFree(code, p, q)
    requires IsCall(code, a) && a != q && FirstRead(code, path, a, q) && HoldsFlag(code, path, a)
    ensures IsCall(ReplacedWith(code, p, q, ls), a) && HoldsFlag(ReplacedWith(code, p, q, ls), path, a)
    decreases |path|
  {
    var r, slot := ReplacedWith(code, p, q, ls), code[a].slot;
    ReplacedCalls(code, p, q, ls, a);
    if WrittenAlike(code, path, a) {
      var i :| LastWrite(code, path, i, slot) && SameKey(code, path[i], a);
      if path[i] == q {
        assert SameKey(code, p, a) && SameKey(code, a, p);
        var upTo := path[..i + 1];
        FeasiblePrefix(code, path, i + 1);
        assert FirstRead(code, upTo, p, q);
        KeepsHolds(code, p, q, ls, upTo, p);
        HoldsBehind(code, p, q, ls, path, i);
      } else {
        KeepsWritten(code, p, q, ls, path, a, i);
      }
    } else {
      KeepsStillFalse(code, p, q, ls, path, slot);
      KeepsWasFalse(code, p, q, ls, path, a);
    }
  }

  lemma KeepsFlagKept(code: Code, p: nat, q: nat, ls: seq<bool>, a: nat, b: nat)
    requires Pair(code, p, q, ls) && EntersAtStarts(code) && Repeats(code, p, q)
    requires FlagKept(code, p, q) && SlotFree(code, p, q)
    requires Repeats(code, a, b) && a != q && b != q && FlagKept(code, a, b)
    ensures IsCall(ReplacedWith(code, p, q, ls), a) && FlagKept(ReplacedWith(code, p, q, ls), a, b)
  {
    var r := ReplacedWith(code, p, q, ls);
    ReplacedCalls(code, p, q, ls, a);
    assert Reads(code, b, code[a].slot) && b != q + 1 && b != a;
    forall path | Feasible(r, path) && Last(path) == b ensures HoldsFlag(r, path, a) {
      FeasibleBefore(code, p, q, ls, path);
      assert HoldsFlag(code, path, a);
      assert FirstRead(code, path, a, q);
      KeepsHolds(code, p, q, ls, path, a);
    }
  }

  lemma FirstWrite(code: Code, path: seq<nat>, i: nat, slot: Slot) returns (k: nat)
    requires WrittenBetween(code, path, i, slot)
    ensures i < k < |path| - 1 && Writes(code, path[k], slot) && forall j :: i < j < k ==> !Writes(code, path[j], slot)
  {
    k := i + 1;
    while !Writes(code, path[k], slot)
      invariant i < k < |path| - 1 && forall j :: i < j < k ==> !Writes(code, path[j], slot)
      decreases |path| - k
    {
      k := k + 1;
    }
  }

  /** Between b and a read of its slot there is a write that stays. */
  lemma WriteStays(code: Code, p: nat, q: nat, ls: seq<bool>, a: nat, b: nat, path: seq<nat>, i: nat)
    requires Pair(code, p, q, ls) && Repeats(code, p, q) && SlotFree(code, p, q)
    requires Repeats(code, a, b) && b != q && SlotFree(code, a, b) && code[a].slot != code[b].slot
    requires b + 1 < |code| && code[b + 1].LoadNull? && ReadAgain(code, path, i, b) && Last(path) != q + 1
    ensures WrittenBetween(ReplacedWith(code, p, q, ls), path, i, code[b].slot)
  {
    var r, slot := ReplacedWith(code, p, q, ls), code[b].slot;
    var k := FirstWrite(code, path, i, slot);
    if path[k] == q {
      if code[p].slot == slot {
        var upTo := path[..k + 1];
        FeasiblePrefix(code, path, k + 1);
        assert ReadAgain(code, upTo, i, b);
        var m := FirstWrite(code, upTo, i, slot);
        assert false;
      }
      var j := LastOf(path[..|path| - 1], q);
      NotLater(path[..|path| - 1], q, j, k);
      assert ReadAgain(code, path, j, q);
      k := FirstWrite(code, path, j, slot);
      assert path[k] == path[..|path| - 1][j + 1..][k - j - 1];
    }
    SameWrites(code, p, q, ls, path[k], slot);
  }

  lemma ReadsBefore(code: Code, p: nat, q: nat, ls: seq<bool>, l: nat, slot: Slot)
    requires Pair(code, p, q, ls) && Repeats(code, p, q) && Reads(ReplacedWith(code, p, q, ls), l, slot)
    ensures if l == q + 1 then code[p].slot == slot else Reads(code, l, slot)
  {
    var r := ReplacedWith(code, p, q, ls);
    if !(l < |r| && r[l].LoadNull?) {
      var c :| Repeats(r, c, l) && r[c].slot == slot;
      RepeatsBefore(code, p, q, ls, c, l);
      ReplacedCalls(code, p, q, ls, c);
    }
  }

  lemma StaysWritten(code: Code, p: nat, q: nat, ls: seq<bool>, a: nat, b: nat, path: seq<nat>, i: nat)
    requires Pair(code, p, q, ls) && EntersAtStarts(code) && Repeats(code, p, q) && SlotFree(code, p, q)
    requires Repeats(code, a, b) && a != q && b != q && SlotFree(code, a, b) && code[a].slot != code[b].slot
    requires b + 1 < |code| && code[b + 1].LoadNull?
    requires IsCall(ReplacedWith(code, p, q, ls), b) && ReadAgain(ReplacedWith(code, p, q, ls), path, i, b)
    ensures WrittenBetween(ReplacedWith(code, p, q, ls), path, i, code[b].slot)
  {
    var r, slot := ReplacedWith(code, p, q, ls), code[b].slot;
    ReplacedCalls(code, p, q, ls, b);
    FeasibleBefore(code, p, q, ls, path);
    ReadsBefore(code, p, q, ls, Last(path), slot);
    if Last(path) == q + 1 {
      LoadAfter(code, path, |path| - 1, q);
      var upTo := path[..|path| - 1];
      FeasiblePrefix(code, path, |path| - 1);
      assert ReadAgain(code, upTo, i, b);
      WriteStays(code, p, q, ls, a, b, upTo, i);
      var k := FirstWrite(r, upTo, i, slot);
      assert upTo[k] == path[k];
    } else {
      WriteStays(code, p, q, ls, a, b, path, i);
    }
  }

  lemma KeepsSlotFree(code: Code, p: nat, q: nat, ls: seq<bool>, a: nat, b: nat)
    requires Pair(code, p, q, ls) && EntersAtStarts(code) && Repeats(code, p, q) && SlotFree(code, p, q)
    requires Repeats(code, a, b) && a != q && b != q && SlotFree(code, a, b) && b + 1 < |code| && code[b + 1].LoadNull?
    ensures IsCall(ReplacedWith(code, p, q, ls), a) && IsCall(ReplacedWith(code, p, q, ls), b)
    ensures SlotFree(ReplacedWith(code, p, q, ls), a, b)
  {
    var r := ReplacedWith(code, p, q, ls);
    ReplacedCalls(code, p, q, ls, a);
    ReplacedCalls(code, p, q, ls, b);
    if r[a].slot != r[b].slot {
      forall path, i | ReadAgain(r, path, i, b) ensures WrittenBetween(r, path, i, r[b].slot) {
        StaysWritten(code, p, q, ls, a, b, path, i);
      }
    }
  }

  // ----- all together -----

  lemma KeepsReplaceable(code: Code, p: nat, q: nat, ls: seq<bool>, a: nat, b: nat)
    requires Pair(code, p, q, ls) && Eliminable(code, q) && Repeats(code, p, q) && q <= b
    requires Repeats(ReplacedWith(code, p, q, ls), a, b)
    ensures Replaceable(ReplacedWith(code, p, q, ls), a, b)
  {
    RepeatsBefore(code, p, q, ls, a, b);
    assert Replaceable(code, p, q) && Replaceable(code, a, b);
    KeepsFirstCalled(code, p, q, ls, a, b);
    KeepsUsedElsewhere(code, p, q, ls, a, b);
    KeepsFlagKept(code, p, q, ls, a, b);
    KeepsSlotFree(code, p, q, ls, a, b);
  }

  lemma LiveInUnreached(code: Code, p: nat, q: nat, u: nat, x: Var)
    requires Pair(code, p, q, Locals(code, p)) && Plain(code) && UsedElsewhere(code, p, q)
    requires u < |code| && LiveIn(x) in Uses(Replaced(code, p, q)[u])
    ensures !Reached(code, u)
  {
    ReplacedLiveIns(code, p, q, Locals(code, p), u, x);
    assert Locals(code, p)[u] == SameBlock(code, u, p);
  }

  /** Operands that are taken from the predecessors are in code that is not reached. */
  lemma KeepsPlain(code: Code, p: nat, q: nat)
    requires Pair(code, p, q, Locals(code, p)) && Plain(code) && UsedElsewhere(code, p, q)
    ensures Plain(Replaced(code, p, q))
  {
    var r := Replaced(code, p, q);
    forall u, x | 0 <= u < |r| && LiveIn(x) in Uses(r[u]) ensures !Reached(r, u) {
      LiveInUnreached(code, p, q, u, x);
      if Reached(r, u) {
        SameReached(code, p, q, Locals(code, p), u);
        assert false;
      }
    }
  }

  lemma KeepsAllReplaceable(code: Code, p: nat, q: nat, ls: seq<bool>)
    requires Pair(code, p, q, ls) && Eliminable(code, q) && Repeats(code, p, q)
    ensures forall a, b :: Repeats(ReplacedWith(code, p, q, ls), a, b) && q + 2 <= b ==>
              Replaceable(ReplacedWith(code, p, q, ls), a, b)
  {
    forall a, b | Repeats(ReplacedWith(code, p, q, ls), a, b) && q + 2 <= b
      ensures Replaceable(ReplacedWith(code, p, q, ls), a, b)
    {
      KeepsReplaceable(code, p, q, ls, a, b);
    }
  }

  lemma KeepsForm(code: Code, p: nat, q: nat, ls: seq<bool>)
    requires Eliminable(code, q) && Repeats(code, p, q) && Pair(code, p, q, ls)
    ensures var r := ReplacedWith(code, p, q, ls);
            && SingleDefs(r) && DefsDominateUses(r) && DefsDominateFlows(r) && RowsApart(r) && FollowedByLoad(r, q + 2)
            && EntersAtStarts(r)
  {
    KeepsUses(code, p, q, ls);
    KeepsLoads(code, p, q, ls);
    KeepsSingleDefs(code, p, q, ls);
    KeepsEntries(code, p, q, ls);
  }

  /** The code with the call replaced can go on being rewritten. */
  lemma KeepsEliminable(code: Code, p: nat, q: nat)
    requires Eliminable(code, q) && Repeats(code, p, q)
    ensures Eliminable(Replaced(code, p, q), q + 2)
  {
    RepeatsPair(code, p, q);
    assert Replaceable(code, p, q);
    KeepsForm(code, p, q, Locals(code, p));
    KeepsPlain(code, p, q);
    KeepsAllReplaceable(code, p, q, Locals(code, p));
  }
}
