/** When the conditions of SubExprForm hold, and that the pass changes results where they do not. */
module SubExprExact {
  import opened CodegenIr
  import opened CodegenRuns
  import opened SubExprForm
  import opened SubExprKept
  import opened SubExprSound

  // ----- enough for the first call: it dominates the other -----

  lemma DominatingSuffices(code: Code, p: nat, q: nat)
    requires DefsDominateUses(code) && RowsApart(code) && IsCall(code, p) && Dom(code, p, q)
    ensures FirstCalled(code, p, q)
  {
    forall path | Feasible(code, path) && Last(path) == q ensures Fresh(code, path, p, code[p].row) {
      RowFresh(code, path, p);
    }
  }

  // ----- enough for the updater: one call in a block -----

  ghost predicate OneCallPerBlock(code: Code) {
    forall p, q :: IsCall(code, p) && IsCall(code, q) && BlockStart(code, p) == BlockStart(code, q) ==> p == q
  }

  /** From a path to p without q, one to u in p's block. */
  lemma AroundTo(code: Code, path: seq<nat>, u: nat, q: nat) returns (around: seq<nat>)
    requires EntersAtStarts(code) && OneCallPerBlock(code)
    requires IsPath(code, path) && IsCall(code, Last(path)) && IsCall(code, q)
    requires q !in path && u < |code| && SameBlock(code, u, Last(path))
    ensures IsPath(code, around) && Last(around) == u && q !in around
  {
    var p := Last(path);
    if u <= p {
      Through(code, path, u);
      var i :| 0 <= i < |path| && path[i] == u;
      around := path[..i + 1];
    } else {
      around := Along(code, path, u);
      if q in around {
        WithinBlock(code, q, u);
        assert false;
      }
    }
  }

  lemma NotDominatedInBlock(code: Code, path: seq<nat>, p: nat, q: nat)
    requires EntersAtStarts(code) && OneCallPerBlock(code) && IsCall(code, p) && IsCall(code, q) && p != q
    requires IsPath(code, path) && Last(path) < |code| && Dom(code, q, Last(path)) && Dom(code, p, q)
    ensures !SameBlock(code, Last(path), p)
  {
    var u := Last(path);
    if SameBlock(code, u, p) {
      var j := First(path, q);
      assert IsPath(code, path[..j + 1]) && Last(path[..j + 1]) == q;
      var k :| 0 <= k < |path[..j + 1]| && path[..j + 1][k] == p;
      var before := path[..k + 1];
      assert IsPath(code, before) && Last(before) == p && q !in before;
      var around := AroundTo(code, before, u, q);
      assert false;
    }
  }

  /** With at most one call in a block, the result of a repeated call is not used in the block of the first. */
  lemma OneCallSuffices(code: Code, p: nat, q: nat)
    requires EntersAtStarts(code) && DefsDominateUses(code) && OneCallPerBlock(code)
    requires Repeats(code, p, q) && Dom(code, p, q)
    ensures UsedElsewhere(code, p, q)
  {
    forall u | 0 <= u < |code| && Of(code[q].dst) in Uses(code[u]) && Reached(code, u) ensures !SameBlock(code, u, p) {
      var path :| IsPath(code, path) && Last(path) == u;
      assert code[q].dst in Defs(code[q]) && DominatesUse(code, q, u, code[q].dst);
      NotDominatedInBlock(code, path, p, q);
    }
  }

  /** Then, in code that is reached, the updater substitutes the first result for the other. */
  lemma UpdaterSubstitutes(code: Code, p: nat, q: nat, u: nat, o: Operand)
    requires Plain(code) && IsCall(code, p) && IsCall(code, q) && UsedElsewhere(code, p, q)
    requires u < |code| && Reached(code, u) && o in Uses(code[u])
    ensures Rewritten(o, SameBlock(code, u, p), code[p].dst, code[q].dst) == Of(Renamed(o.x, code[p].dst, code[q].dst))
  {
    assert o.Of?;
  }

  // ----- enough for the flag: control goes on only when nothing is NULL -----

  /** Step k of the path writes the slot of p, and p does not come again. */
  predicate SinceLast(code: Code, path: seq<nat>, k: int, p: nat)
    requires IsCall(code, p)
  {
    0 <= k < |path| - 1 && Writes(code, path[k], code[p].slot) && forall j :: k < j < |path| ==> path[j] != p
  }

  /** Since the last p, every write of its slot is tested at once, and control comes to q only if the flag is false. */
  ghost predicate NullsLeave(code: Code, p: nat, q: nat)
    requires IsCall(code, p)
  {
    forall path, k :: Feasible(code, path) && Last(path) == q && SinceLast(code, path, k, p) ==>
      FoundFalse(code, path, k + 1, code[p].slot)
  }

  /** The last write of a slot that has been written. */
  lemma FindLastWrite(code: Code, path: seq<nat>, i: nat, slot: Slot) returns (w: nat)
    requires i < |path| - 1 && Writes(code, path[i], slot)
    ensures i <= w && LastWrite(code, path, w, slot)
  {
    w := |path| - 2;
    while !Writes(code, path[w], slot)
      invariant i <= w < |path| - 1 && forall k :: w < k < |path| - 1 ==> !Writes(code, path[k], slot)
      decreases w
    {
      w := w - 1;
    }
  }

  /** As in arithmetic on nullable columns: the flags of all operands evaluated so far are false. */
  lemma NullsLeaveSuffices(code: Code, p: nat, q: nat)
    requires Repeats(code, p, q) && FirstCalled(code, p, q) && NullsLeave(code, p, q)
    ensures FlagKept(code, p, q)
  {
    var slot := code[p].slot;
    forall path | Feasible(code, path) && Last(path) == q ensures HoldsFlag(code, path, p) {
      assert Fresh(code, path, p, code[p].row);
      var j := LastOf(path, p);
      forall k | j < k < |path| ensures path[k] != p {
        assert path[k] == path[j + 1..][k - j - 1];
      }
      assert SinceLast(code, path, j, p);
      assert WasFalse(code, path, p);
      var w := FindLastWrite(code, path, j, slot);
      assert SinceLast(code, path, w, p);
      assert FoundFalse(code, path, w + 1, slot);
      assert StillFalse(code, path, slot);
    }
  }

  // ----- a function that returns the flag -----

  ghost predicate ReturnsFlag(code: Code, q: nat) {
    q + 2 < |code| && code[q + 1].LoadNull? && code[q + 2] == Ret(Of(code[q + 1].dst))
  }

  lemma NotBehindReturn(code: Code, path: seq<nat>, k: nat)
    requires IsPath(code, path) && 0 < k < |path|
    ensures path[k - 1] < |code| && !code[path[k - 1]].Ret?
  {
    assert Edge(code, path[k - 1], path[k]);
  }

  /** Behind q there is nothing but the load and the return. */
  lemma NothingBehind(code: Code, path: seq<nat>, i: nat, q: nat)
    requires IsCall(code, q) && ReturnsFlag(code, q) && IsPath(code, path) && i < |path| && path[i] == q
    ensures i + 3 >= |path| && forall k :: i < k < |path| ==> path[k] == q + (k - i)
  {
    if i + 1 < |path| {
      assert Edge(code, path[i], path[i + 1]);
      if i + 2 < |path| {
        assert Edge(code, path[i + 1], path[i + 2]);
        if i + 3 < |path| {
          NotBehindReturn(code, path, i + 3);
          assert false;
        }
      }
    }
  }

  lemma ReturnsSlotFree(code: Code, p: nat, q: nat)
    requires IsCall(code, p) && IsCall(code, q) && ReturnsFlag(code, q)
    ensures SlotFree(code, p, q)
  {
    forall path, i ensures !ReadAgain(code, path, i, q) {
      if ReadAgain(code, path, i, q) {
        NothingBehind(code, path, i, q);
        assert false;
      }
    }
  }

  lemma NotYet(code: Code, p: nat, q: nat, run: seq<State>)
    requires IsCall(code, p) && IsCall(code, q)
    requires forall k :: 0 <= k < |run| ==> run[k].Running? && run[k].pc != q
    ensures !IsStale(code, p, q, Pcs(run))
  {
  }

  /** The next states are alike, and match unless control comes to q. */
  ghost predicate KeepsMatch(it: Interp, code: Code, p: nat, q: nat, r: Code, run: seq<State>, t: State)
    requires IsCall(code, p) && IsCall(code, q) && run != []
  {
    var s := Step(it, code, Now(run));
    s.Running? ==>
      && Alike(code, q, IsStale(code, p, q, Pcs(run)), s, Step(it, r, t))
      && (s.pc != q ==> Matches(it, code, p, q, run + [s], Step(it, r, t)))
  }

  ghost predicate KeepsMatches(it: Interp, code: Code, p: nat, q: nat, r: Code)
    requires IsCall(code, p) && IsCall(code, q)
  {
    forall run, t {:trigger KeepsMatch(it, code, p, q, r, run, t)} ::
      Matches(it, code, p, q, run, t) ==> KeepsMatch(it, code, p, q, r, run, t)
  }

  lemma SimulatedKeeps(it: Interp, code: Code, p: nat, q: nat)
    requires Simulated(code, p, q)
    ensures KeepsMatches(it, code, p, q, Replaced(code, p, q))
  {
    forall run, t | Matches(it, code, p, q, run, t) ensures KeepsMatch(it, code, p, q, Replaced(code, p, q), run, t) {
      StepSame(it, code, p, q, run, t);
      var s := Step(it, code, Now(run));
      if s.Running? && s.pc != q {
        MatchesNext(it, code, p, q, run, t);
      }
    }
  }

  lemma MatchesStart(it: Interp, code: Code, p: nat, q: nat, run: seq<State>)
    requires IsCall(code, p) && IsCall(code, q) && IsRun(it, code, run) && |run| == 1 && run[0].pc != q
    ensures Matches(it, code, p, q, run, run[0])
  {
  }

  lemma OneMoreMatches(it: Interp, code: Code, p: nat, q: nat, r: Code, run: seq<State>, t: State)
    requires IsCall(code, p) && IsCall(code, q) && KeepsMatches(it, code, p, q, r) && Matches(it, code, p, q, run, t)
    requires Step(it, code, Now(run)).Running? && Step(it, code, Now(run)).pc != q
    ensures Matches(it, code, p, q, run + [Step(it, code, Now(run))], Step(it, r, t))
  {
    assert KeepsMatch(it, code, p, q, r, run, t);
  }

  lemma OneMoreAlike(it: Interp, code: Code, p: nat, q: nat, r: Code, run: seq<State>, t: State)
    requires IsCall(code, p) && IsCall(code, q) && KeepsMatches(it, code, p, q, r) && Matches(it, code, p, q, run, t)
    requires Step(it, code, Now(run)).Running? && forall k :: 0 <= k < |run| ==> run[k].pc != q
    ensures Alike(code, q, false, Step(it, code, Now(run)), Step(it, r, t))
  {
    assert KeepsMatch(it, code, p, q, r, run, t);
    NotYet(code, p, q, run);
  }

  /** Before control comes to q, the two runs match. */
  lemma {:induction false} MatchesBefore(it: Interp, code: Code, p: nat, q: nat, r: Code, run: seq<State>)
    requires IsCall(code, p) && IsCall(code, q) && KeepsMatches(it, code, p, q, r) && IsRun(it, code, run)
    requires forall k :: 0 <= k < |run| ==> run[k].pc != q
    ensures Matches(it, code, p, q, run, Steps(it, r, run[0], |run| - 1))
    decreases |run|
  {
    var n := |run| - 1;
    if n == 0 {
      MatchesStart(it, code, p, q, run);
    } else {
      var before := run[..n];
      RunPrefix(it, code, run, n);
      MatchesBefore(it, code, p, q, r, before);
      assert Follows(it, code, run, n - 1) && before + [run[n]] == run;
      OneMoreMatches(it, code, p, q, r, before, Steps(it, r, run[0], n - 1));
    }
  }

  /** The run of the other code, as far. */
  ghost predicate AlikeAfter(it: Interp, code: Code, q: nat, r: Code, start: State, s: State, n: nat)
    requires IsCall(code, q)
  {
    Alike(code, q, false, s, Steps(it, r, start, n))
  }

  lemma AlikeNext(it: Interp, code: Code, p: nat, q: nat, r: Code, run: seq<State>, s: State)
    requires IsCall(code, p) && IsCall(code, q) && KeepsMatches(it, code, p, q, r) && IsRun(it, code, run)
    requires forall k :: 0 <= k < |run| ==> run[k].pc != q
    requires s == Step(it, code, Now(run)) && s.Running?
    ensures AlikeAfter(it, code, q, r, run[0], s, |run|)
  {
    MatchesBefore(it, code, p, q, r, run);
    OneMoreAlike(it, code, p, q, r, run, Steps(it, r, run[0], |run| - 1));
  }

  lemma LastStep(it: Interp, code: Code, run: seq<State>)
    requires IsRun(it, code, run) && |run| > 1
    ensures Now(run) == Step(it, code, Now(run[..|run| - 1]))
  {
    assert Follows(it, code, run, |run| - 2);
  }

  /** The first time it does, they are alike. */
  lemma AlikeAt(it: Interp, code: Code, p: nat, q: nat, r: Code, run: seq<State>)
    requires IsCall(code, p) && IsCall(code, q) && KeepsMatches(it, code, p, q, r) && IsRun(it, code, run)
    requires forall k :: 0 <= k < |run| - 1 ==> run[k].pc != q
    ensures AlikeAfter(it, code, q, r, run[0], Now(run), |run| - 1)
  {
    if |run| > 1 {
      RunPrefix(it, code, run, |run| - 1);
      LastStep(it, code, run);
      AlikeNext(it, code, p, q, r, run[..|run| - 1], Now(run));
    }
  }

  /** Three steps from q: the call, the load and the return. */
  lemma ReturnsLoaded(it: Interp, code: Code, q: nat, s: State)
    requires s.Running? && s.pc == q && ReturnsFlag(code, q) && (code[q].Call? || code[q].Erased?)
    ensures var s1 := Step(it, code, s);
            s1.Running? &&
            Step(it, code, Step(it, code, s1)) == Returned(Get(s1.slots, code[q + 1].slot), s.mem)
  {
    var s1 := Step(it, code, s);
    var s2 := Step(it, code, s1);
    assert s2.Running? && s2.pc == q + 2 && Get(s2.env, code[q + 1].dst) == Get(s1.slots, code[q + 1].slot);
  }

  lemma ReplacedReturns(code: Code, p: nat, q: nat)
    requires IsCall(code, p) && IsCall(code, q) && ReturnsFlag(code, q) && code[q + 1].dst != code[q].dst
    ensures var r := Replaced(code, p, q);
            r[q] == Erased && r[q + 1].slot == code[p].slot && ReturnsFlag(r, q)
  {
    assert Rewritten(Of(code[q + 1].dst), Locals(code, p)[q + 2], code[p].dst, code[q].dst) == Of(code[q + 1].dst);
  }

  lemma FlagsDiffer(it: Interp, code: Code, p: nat, q: nat, r: Code, s: State, t: State)
    requires IsCall(code, p) && IsCall(code, q) && ReturnsFlag(code, q) && code[q + 1].slot == code[q].slot
    requires |r| == |code| && r[q] == Erased && ReturnsFlag(r, q) && r[q + 1].slot == code[p].slot
    requires Alike(code, q, false, s, t) && s.pc == q && !FlagIn(it, code, p, q, s)
    ensures Observe(Step(it, code, Step(it, code, Step(it, code, s)))) != Observe(Step(it, r,
            Step(it, r, Step(it, r, t))))
  {
    ReturnsLoaded(it, code, q, s);
    ReturnsLoaded(it, r, q, t);
  }

  lemma ComesOnce(it: Interp, code: Code, q: nat, run: seq<State>)
    requires IsCall(code, q) && ReturnsFlag(code, q) && IsRun(it, code, run) && Now(run).pc == q
    ensures forall k :: 0 <= k < |run| - 1 ==> run[k].pc != q
  {
    RunIsPath(it, code, run);
    forall k | 0 <= k < |run| - 1 ensures run[k].pc != q {
      if run[k].pc == q {
        NothingBehind(code, Pcs(run), k, q);
        assert false;
      }
    }
  }

  lemma ThreeMore(it: Interp, code: Code, s: State, n: nat)
    ensures Steps(it, code, s, n + 3) == Step(it, code, Step(it, code, Step(it, code, Steps(it, code, s, n))))
  {
    assert Steps(it, code, s, n + 1) == Step(it, code, Steps(it, code, s, n));
    assert Steps(it, code, s, n + 2) == Step(it, code, Steps(it, code, s, n + 1));
  }

  lemma SeenDifferent(it: Interp, a: Code, b: Code, s: State, n: nat)
    requires s.Running? && s == Start(s.env, s.slots, s.mem)
    requires Observe(Steps(it, a, s, n)) != Observe(Steps(it, b, s, n))
    ensures !Equivalent(a, b)
  {
  }

  /** Where the flag is not there, the function returns another one. */
  lemma OtherFlagReturned(it: Interp, code: Code, p: nat, q: nat, run: seq<State>)
    requires Simulated(code, p, q) && ReturnsFlag(code, q)
    requires IsRun(it, code, run) && Now(run).pc == q && !FlagIn(it, code, p, q, Now(run))
    ensures !Equivalent(code, Replaced(code, p, q))
  {
    var n, r := |run| - 1, Replaced(code, p, q);
    ComesOnce(it, code, q, run);
    SimulatedKeeps(it, code, p, q);
    AlikeAt(it, code, p, q, r, run);
    StateAfter(it, code, run, n);
    assert code[q + 1].dst in Defs(code[q + 1]) && code[q].dst in Defs(code[q]);
    ReplacedReturns(code, p, q);
    FlagsDiffer(it, code, p, q, r, run[n], Steps(it, r, run[0], n));
    ThreeMore(it, code, run[0], n);
    ThreeMore(it, r, run[0], n);
    SeenDifferent(it, code, r, run[0], n + 3);
  }

  /** In a function that returns the flag of the repeated call, replacing the call keeps what the function does
      if and only if in every run that comes to it the slot of the first call holds that flag. */
  lemma ReturnedFlag(code: Code, p: nat, q: nat)
    requires Formed(code, q) && Repeats(code, p, q) && FirstCalled(code, p, q) && UsedElsewhere(code, p, q)
    requires ReturnsFlag(code, q)
    ensures Equivalent(code, Replaced(code, p, q)) <==> FlagThere(code, p, q)
  {
    ReturnsSlotFree(code, p, q);
    if FlagThere(code, p, q) {
      SimulationSound(code, p, q);
    } else {
      var it, run :| IsRun(it, code, run) && Now(run).pc == q && !FlagIn(it, code, p, q, Now(run));
      OtherFlagReturned(it, code, p, q, run);
    }
  }

  // ----- code without branches -----

  /** The steps of the path are taken on every input. */
  predicate Straight(code: Code, path: seq<nat>) {
    forall k :: 0 <= k < |path| - 1 ==> path[k] < |code| && !code[path[k]].Branch? && !code[path[k]].Phi?
  }

  lemma {:induction false} StraightRun(it: Interp, code: Code, path: seq<nat>, start: State) returns (run: seq<State>)
    requires IsPath(code, path) && Straight(code, path)
    requires start.Running? && start == Start(start.env, start.slots, start.mem)
    ensures IsRun(it, code, run) && Pcs(run) == path && run[0] == start
    decreases |path|
  {
    var n := |path| - 1;
    if n == 0 {
      run := [start];
    } else {
      var before := StraightRun(it, code, path[..n], start);
      assert Edge(code, path[n - 1], path[n]) && Now(before).pc == path[n - 1];
      RunExtends(it, code, before);
      run := before + [Step(it, code, Now(before))];
    }
  }

  /** Only this function, called with 1, gives NULL. */
  function Marking(fn: Fn): Interp {
    Interp((f, x) => (0, if f == fn && x == 1 then 1 else 0), (op, xs, mem) => (0, mem))
  }

  /** On a straight path, a flag that was last written by a call with another key can be another one. */
  lemma OtherWriter(code: Code, p: nat, q: nat, path: seq<nat>, w: nat)
    requires SameKey(code, p, q) && IsPath(code, path) && Last(path) == q && Straight(code, path)
    requires LastWrite(code, path, w, code[p].slot) && IsCall(code, path[w]) && !SameKey(code, path[w], p)
    requires forall k :: 0 <= k < |path| ==>
               !Assigns(code, path[k], code[p].row) && !Assigns(code, path[k], code[path[w]].row)
    ensures !FlagThere(code, p, q)
  {
    var c, n := code[path[w]], |path| - 1;
    var it := Marking(c.fn);
    var run := StraightRun(it, code, path, Start(map[c.row := 1], map[], map[]));
    assert c.dst in Defs(c) && !Assigns(code, path[w], c.row);
    CallLeaves(it, code, run, w);
    ValueStays(it, code, run, 0, w + 1, c.row);
    SlotStays(it, code, run, w + 1, n, c.slot);
    ValueStays(it, code, run, 0, n, code[p].row);
    assert !FlagIn(it, code, p, q, Now(run));
  }

  lemma StraightFeasible(code: Code, path: seq<nat>)
    requires IsPath(code, path) && forall k :: 0 <= k < |code| ==> !code[k].Branch?
    ensures Feasible(code, path)
  {
  }

  lemma PathInside(code: Code, path: seq<nat>)
    requires IsPath(code, path)
    ensures forall k :: 0 <= k < |path| - 1 ==> path[k] < |code|
  {
    forall k | 0 <= k < |path| - 1 ensures path[k] < |code| {
      assert Edge(code, path[k], path[k + 1]);
    }
  }

  /** Code without branches, in which only calls, with parameters as rows, write the slot of p. */
  ghost predicate StraightCode(code: Code, p: nat)
    requires IsCall(code, p)
  {
    && (forall k :: 0 <= k < |code| ==> !code[k].Branch? && !code[k].Phi?)
    && (forall k: nat :: Writes(code, k, code[p].slot) ==> IsCall(code, k))
    && (forall k, j: nat :: IsCall(code, k) && code[k].slot == code[p].slot ==> !Assigns(code, j, code[k].row))
  }

  lemma LastWriterMatters(code: Code, p: nat, q: nat, path: seq<nat>)
    requires p != q && SameKey(code, p, q) && FirstCalled(code, p, q) && StraightCode(code, p)
    requires IsPath(code, path) && Last(path) == q && !WrittenAlike(code, path, p)
    ensures !FlagThere(code, p, q)
  {
    StraightFeasible(code, path);
    assert Fresh(code, path, p, code[p].row);
    var j := LastOf(path, p);
    var w := FindLastWrite(code, path, j, code[p].slot);
    PathInside(code, path);
    OtherWriter(code, p, q, path, w);
  }

  /** In such code, if it returns the flag of the repeated call, replacing keeps what the function does if and only if
      on the way to the call the slot was last written by a call with the same function and row. */
  lemma StraightExactly(code: Code, p: nat, q: nat)
    requires Formed(code, q) && Repeats(code, p, q) && FirstCalled(code, p, q) && UsedElsewhere(code, p, q)
    requires ReturnsFlag(code, q) && StraightCode(code, p)
    ensures Equivalent(code, Replaced(code, p, q)) <==>
            forall path :: IsPath(code, path) && Last(path) == q ==> WrittenAlike(code, path, p)
  {
    ReturnedFlag(code, p, q);
    if path :| IsPath(code, path) && Last(path) == q && !WrittenAlike(code, path, p) {
      LastWriterMatters(code, p, q, path);
    } else {
      assert FlagKept(code, p, q);
      KeptIsThere(code, p, q);
    }
  }

  // ----- a slot that is read again -----

  lemma LoadAndReturn(it: Interp, code: Code, s: State, n: nat, start: State)
    requires s.Running? && s.pc + 1 < |code| && code[s.pc].LoadNull? && code[s.pc + 1] == Ret(Of(code[s.pc].dst))
    requires Steps(it, code, start, n) == s
    ensures Steps(it, code, start, n + 2) == Returned(Get(s.slots, code[s.pc].slot), s.mem)
  {
    assert Steps(it, code, start, n + 1) == Step(it, code, s);
    assert Steps(it, code, start, n + 2) == Step(it, code, Step(it, code, s));
  }

  /** Nothing is NULL. */
  function NoNulls(): Interp {
    Interp((f, x) => (0, 0), (op, xs, mem) => (0, mem))
  }

  /** The path ends with a load of the slot, the flag of which is returned. */
  predicate EndsWithFlag(code: Code, path: seq<nat>, slot: Slot) {
    && IsPath(code, path) && Straight(code, path)
    && var l := Last(path);
       l + 1 < |code| && code[l].LoadNull? && code[l].slot == slot && code[l + 1] == Ret(Of(code[l].dst))
  }

  /** The run along the path, and what it returns. */
  lemma AlongTo(it: Interp, code: Code, path: seq<nat>, slot: Slot, start: State) returns (run: seq<State>)
    requires EndsWithFlag(code, path, slot)
    requires start.Running? && start == Start(start.env, start.slots, start.mem)
    ensures IsRun(it, code, run) && Pcs(run) == path && run[0] == start
    ensures Observe(Steps(it, code, start, |path| + 1)) == View.Value(Get(Now(run).slots, slot), Now(run).mem)
  {
    run := StraightRun(it, code, path, start);
    StateAfter(it, code, run, |path| - 1);
    LoadAndReturn(it, code, Now(run), |path| - 1, start);
  }

  lemma CallFlagStays(code: Code, run: seq<State>, i: nat, slot: Slot)
    requires IsRun(NoNulls(), code, run) && LastWrite(code, Pcs(run), i, slot) && IsCall(code, Pcs(run)[i])
    ensures Get(Now(run).slots, slot) == 0
  {
    CallWrites(NoNulls(), code, run, i);
    SlotStays(NoNulls(), code, run, i + 1, |run| - 1, slot);
  }

  /** What the run along the path returns. */
  ghost predicate ReturnsAfter(code: Code, start: State, n: nat, flag: Value) {
    var view := Observe(Steps(NoNulls(), code, start, n));
    view.Value? && view.result == flag
  }

  lemma CallFlagReturned(code: Code, path: seq<nat>, i: nat, slot: Slot, start: State)
    requires EndsWithFlag(code, path, slot) && LastWrite(code, path, i, slot) && IsCall(code, path[i])
    requires start.Running? && start == Start(start.env, start.slots, start.mem)
    ensures ReturnsAfter(code, start, |path| + 1, 0)
  {
    var run := AlongTo(NoNulls(), code, path, slot, start);
    CallFlagStays(code, run, i, slot);
  }

  lemma FirstFlagReturned(code: Code, path: seq<nat>, slot: Slot, start: State)
    requires EndsWithFlag(code, path, slot) && forall k :: 0 <= k < |path| - 1 ==> !Writes(code, path[k], slot)
    requires start.Running? && start == Start(start.env, start.slots, start.mem)
    ensures ReturnsAfter(code, start, |path| + 1, Get(start.slots, slot))
  {
    var run := AlongTo(NoNulls(), code, path, slot, start);
    SlotStays(NoNulls(), code, run, 0, |path| - 1, slot);
  }

  lemma StraightReplaced(code: Code, p: nat, q: nat, ls: seq<bool>, path: seq<nat>)
    requires Pair(code, p, q, ls) && IsPath(code, path) && Straight(code, path)
    ensures IsPath(ReplacedWith(code, p, q, ls), path) && Straight(ReplacedWith(code, p, q, ls), path)
  {
    ReplacedDefs(code, p, q, ls);
    forall k | 0 < k < |path| ensures Edge(ReplacedWith(code, p, q, ls), path[k - 1], path[k]) {
      assert Edge(code, path[k - 1], path[k]);
    }
  }

  lemma EndsReplaced(code: Code, p: nat, q: nat, ls: seq<bool>, path: seq<nat>, slot: Slot)
    requires Pair(code, p, q, ls) && EndsWithFlag(code, path, slot) && Last(path) != q + 1
    ensures EndsWithFlag(ReplacedWith(code, p, q, ls), path, slot)
  {
    var l := Last(path);
    StraightReplaced(code, p, q, ls, path);
    assert code[l].dst in Defs(code[l]) && code[q].dst in Defs(code[q]);
    assert Rewritten(Of(code[l].dst), ls[l + 1], code[p].dst, code[q].dst) == Of(code[l].dst);
  }

  lemma MissedFlag(code: Code, p: nat, q: nat, ls: seq<bool>, path: seq<nat>, i: nat)
    requires Pair(code, p, q, ls) && EndsWithFlag(code, path, code[q].slot) && Last(path) != q + 1
    requires i < |path| - 1 && path[i] == q
    requires forall k :: 0 <= k < |path| - 1 && Writes(code, path[k], code[q].slot) ==> path[k] == q
    ensures !Equivalent(code, ReplacedWith(code, p, q, ls))
  {
    var slot, r := code[q].slot, ReplacedWith(code, p, q, ls);
    var start := Start(map[], map[slot := 1], map[]);
    var w := FindLastWrite(code, path, i, slot);
    CallFlagReturned(code, path, w, slot, start);
    EndsReplaced(code, p, q, ls, path, slot);
    forall k | 0 <= k < |path| - 1 ensures !Writes(r, path[k], slot) {
      SameWrites(code, p, q, ls, path[k], slot);
    }
    FirstFlagReturned(r, path, slot, start);
    SeenDifferent(NoNulls(), code, r, start, |path| + 1);
  }

  /** On a straight path from q, whose slot nothing else writes, to another load of that slot, the flag of which is
      returned: the erased call is missed. */
  lemma RereadShows(code: Code, p: nat, q: nat, path: seq<nat>, i: nat)
    requires Pair(code, p, q, Locals(code, p)) && EndsWithFlag(code, path, code[q].slot) && Last(path) != q + 1
    requires i < |path| - 1 && path[i] == q
    requires forall k :: 0 <= k < |path| - 1 && Writes(code, path[k], code[q].slot) ==> path[k] == q
    ensures !Equivalent(code, Replaced(code, p, q))
  {
    MissedFlag(code, p, q, Locals(code, p), path, i);
  }
}
