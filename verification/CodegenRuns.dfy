/** Runs of a function: the states one after the other, and what an instruction leaves to later ones. */
module CodegenRuns {
  import opened CodegenIr

  ghost predicate Follows(it: Interp, code: Code, run: seq<State>, k: int)
    requires 0 <= k < |run| - 1
  {
    run[k + 1] == Step(it, code, run[k])
  }

  /** The states of a run that has not returned, from the beginning. */
  ghost predicate IsRun(it: Interp, code: Code, run: seq<State>) {
    && run != [] && (forall k :: 0 <= k < |run| ==> run[k].Running?)
    && run[0] == Start(run[0].env, run[0].slots, run[0].mem)
    && forall k :: 0 <= k < |run| - 1 ==> Follows(it, code, run, k)
  }

  function Now(run: seq<State>): State
    requires run != []
  {
    run[|run| - 1]
  }

  /** Where control has been. */
  function Pcs(run: seq<State>): (path: seq<nat>)
    ensures |path| == |run| && forall k :: 0 <= k < |run| && run[k].Running? ==> path[k] == run[k].pc
  {
    seq(|run|, k requires 0 <= k < |run| => if run[k].Running? then run[k].pc else 0)
  }

  lemma StepEdge(it: Interp, code: Code, s: State)
    requires s.Running? && Step(it, code, s).Running?
    ensures Edge(code, s.pc, Step(it, code, s).pc) && Step(it, code, s).from == s.pc
  {
  }

  lemma RunIsPath(it: Interp, code: Code, run: seq<State>)
    requires IsRun(it, code, run)
    ensures IsPath(code, Pcs(run)) && Last(Pcs(run)) == Now(run).pc
    ensures Now(run).from == if |run| == 1 then -1 else Pcs(run)[|run| - 2]
  {
    forall k | 0 < k < |run| ensures Edge(code, Pcs(run)[k - 1], Pcs(run)[k]) && run[k].from == run[k - 1].pc {
      assert Follows(it, code, run, k - 1);
      StepEdge(it, code, run[k - 1]);
    }
  }

  lemma RunPrefix(it: Interp, code: Code, run: seq<State>, n: nat)
    requires IsRun(it, code, run) && 0 < n <= |run|
    ensures IsRun(it, code, run[..n]) && Pcs(run[..n]) == Pcs(run)[..n]
  {
    forall k | 0 <= k < n - 1 ensures Follows(it, code, run[..n], k) {
      assert Follows(it, code, run, k);
    }
  }

  lemma RunExtends(it: Interp, code: Code, run: seq<State>)
    requires IsRun(it, code, run) && Step(it, code, Now(run)).Running?
    ensures IsRun(it, code, run + [Step(it, code, Now(run))])
    ensures Pcs(run + [Step(it, code, Now(run))]) == Pcs(run) + [Step(it, code, Now(run)).pc]
  {
    var next := run + [Step(it, code, Now(run))];
    forall k | 0 <= k < |next| - 1 ensures Follows(it, code, next, k) {
      assert k < |run| - 1 ==> Follows(it, code, run, k);
    }
  }

  lemma {:induction false} StateAfter(it: Interp, code: Code, run: seq<State>, n: nat)
    requires IsRun(it, code, run) && n < |run|
    ensures Steps(it, code, run[0], n) == run[n]
  {
    if n == 0 {
    } else {
      StateAfter(it, code, run, n - 1);
      assert Follows(it, code, run, n - 1);
    }
  }

  // ----- what stays -----

  predicate Assigns(code: Code, p: nat, x: Var) {
    p < |code| && x in Defs(code[p])
  }

  predicate Writes(code: Code, p: nat, slot: Slot) {
    p < |code| && (code[p].Call? || code[p].StoreNull?) && code[p].slot == slot
  }

  lemma StepLeaves(it: Interp, code: Code, s: State, x: Var)
    requires s.Running? && Step(it, code, s).Running? && !Assigns(code, s.pc, x)
    ensures Get(Step(it, code, s).env, x) == Get(s.env, x)
  {
  }

  lemma StepLeavesSlot(it: Interp, code: Code, s: State, slot: Slot)
    requires s.Running? && Step(it, code, s).Running? && !Writes(code, s.pc, slot)
    ensures Get(Step(it, code, s).slots, slot) == Get(s.slots, slot)
  {
  }

  /** A value that is not assigned stays. */
  lemma {:induction false} ValueStays(it: Interp, code: Code, run: seq<State>, i: nat, n: nat, x: Var)
    requires IsRun(it, code, run) && i <= n < |run| && forall k :: i <= k < n ==> !Assigns(code, Pcs(run)[k], x)
    ensures Get(run[n].env, x) == Get(run[i].env, x)
  {
    if i == n {
    } else {
      ValueStays(it, code, run, i, n - 1, x);
      assert Follows(it, code, run, n - 1) && !Assigns(code, Pcs(run)[n - 1], x);
      StepLeaves(it, code, run[n - 1], x);
    }
  }

  /** A slot that is not written keeps its flag. */
  lemma {:induction false} SlotStays(it: Interp, code: Code, run: seq<State>, i: nat, n: nat, slot: Slot)
    requires IsRun(it, code, run) && i <= n < |run| && forall k :: i <= k < n ==> !Writes(code, Pcs(run)[k], slot)
    ensures Get(run[n].slots, slot) == Get(run[i].slots, slot)
  {
    if i == n {
    } else {
      SlotStays(it, code, run, i, n - 1, slot);
      assert Follows(it, code, run, n - 1) && !Writes(code, Pcs(run)[n - 1], slot);
      StepLeavesSlot(it, code, run[n - 1], slot);
    }
  }

  lemma CallWrites(it: Interp, code: Code, run: seq<State>, i: nat)
    requires IsRun(it, code, run) && i + 1 < |run| && run[i].pc < |code| && code[run[i].pc].Call?
    ensures var c := code[run[i].pc];
            Get(run[i + 1].slots, c.slot) == it.eval(c.fn, Get(run[i].env, c.row)).1
  {
    assert Follows(it, code, run, i);
  }

  lemma CallLeaves(it: Interp, code: Code, run: seq<State>, i: nat)
    requires IsRun(it, code, run) && i + 1 < |run| && run[i].pc < |code| && code[run[i].pc].Call?
    requires code[run[i].pc].row != code[run[i].pc].dst
    ensures var c, r := code[run[i].pc], run[i + 1];
            var v := it.eval(c.fn, Get(r.env, c.row));
            Get(r.env, c.row) == Get(run[i].env, c.row) && Get(r.env, c.dst) == v.0 && Get(r.slots, c.slot) == v.1
  {
    assert Follows(it, code, run, i);
  }

  // ----- flags that have been tested -----

  /** At l the flag in a slot is loaded, and control branches on it. */
  predicate Tests(code: Code, l: nat, slot: Slot) {
    && l + 1 < |code| && code[l].LoadNull? && code[l].slot == slot
    && code[l + 1].Branch? && code[l + 1].cond == Of(code[l].dst) && code[l + 1].yes != code[l + 1].no
  }

  /** At step m of the path the flag in the slot is found to be false. */
  predicate FoundFalse(code: Code, path: seq<nat>, m: int, slot: Slot) {
    0 <= m < |path| - 2 && Tests(code, path[m], slot) && path[m + 2] == code[path[m] + 1].no
  }

  lemma FalseThen(it: Interp, code: Code, run: seq<State>, m: nat, slot: Slot)
    requires IsRun(it, code, run) && FoundFalse(code, Pcs(run), m, slot)
    ensures Get(run[m].slots, slot) == 0
  {
    assert Follows(it, code, run, m) && Follows(it, code, run, m + 1);
    assert run[m + 1].pc == run[m].pc + 1;
    assert Get(run[m + 1].env, code[run[m].pc].dst) == Get(run[m].slots, slot);
  }

  /** At step m it is found to be true. */
  predicate FoundNull(code: Code, path: seq<nat>, m: int, slot: Slot) {
    0 <= m < |path| - 2 && Tests(code, path[m], slot) && path[m + 2] == code[path[m] + 1].yes
  }

  lemma NullThen(it: Interp, code: Code, run: seq<State>, m: nat, slot: Slot)
    requires IsRun(it, code, run) && FoundNull(code, Pcs(run), m, slot)
    ensures Get(run[m].slots, slot) != 0
  {
    assert Follows(it, code, run, m) && Follows(it, code, run, m + 1);
    assert run[m + 1].pc == run[m].pc + 1;
    assert Get(run[m + 1].env, code[run[m].pc].dst) == Get(run[m].slots, slot);
  }

  /** At steps m and n the slot is found to hold different flags, though it is not written in between. */
  ghost predicate Contradicts(code: Code, path: seq<nat>, m: int, n: int, slot: Slot) {
    && 0 <= m < n
    && ((FoundNull(code, path, m, slot) && FoundFalse(code, path, n, slot)) ||
        (FoundFalse(code, path, m, slot) && FoundNull(code, path, n, slot)))
    && forall k :: m < k < n ==> !Writes(code, path[k], slot)
  }

  /** A path of the control flow graph on which the tests of null flags do not contradict each other. */
  ghost predicate Feasible(code: Code, path: seq<nat>) {
    IsPath(code, path) && forall m, n, slot :: !Contradicts(code, path, m, n, slot)
  }

  lemma FeasiblePrefix(code: Code, path: seq<nat>, n: nat)
    requires Feasible(code, path) && 0 < n <= |path|
    ensures Feasible(code, path[..n]) && Last(path[..n]) == path[n - 1]
  {
    forall a, b, slot ensures !Contradicts(code, path[..n], a, b, slot) {
      if Contradicts(code, path[..n], a, b, slot) {
        assert Contradicts(code, path, a, b, slot) by {
          forall k | a < k < b ensures !Writes(code, path[k], slot) {
            assert path[k] == path[..n][k];
          }
        }
        assert false;
      }
    }
  }

  /** The way that a run takes is feasible. */
  lemma RunIsFeasible(it: Interp, code: Code, run: seq<State>)
    requires IsRun(it, code, run)
    ensures Feasible(code, Pcs(run)) && Last(Pcs(run)) == Now(run).pc
  {
    RunIsPath(it, code, run);
    forall m, n, slot ensures !Contradicts(code, Pcs(run), m, n, slot) {
      if Contradicts(code, Pcs(run), m, n, slot) {
        SlotStays(it, code, run, m, n, slot);
        if FoundNull(code, Pcs(run), m, slot) {
          NullThen(it, code, run, m, slot);
          FalseThen(it, code, run, n, slot);
        } else {
          FalseThen(it, code, run, m, slot);
          NullThen(it, code, run, n, slot);
        }
        assert false;
      }
    }
  }
}
