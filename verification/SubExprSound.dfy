/** Replacing a repeated call of be/src/codegen/subexpr-elimination.cc keeps what the function does. */
module SubExprSound {
  import opened CodegenIr
  import opened CodegenRuns
  import opened SubExprForm

  // ----- the results of the two calls -----

  lemma StillFresh(code: Code, done: seq<nat>, c: nat, p: nat, x: Var)
    requires Fresh(code, done + [p], c, x) && c != p
    ensures Fresh(code, done, c, x)
  {
    var next := done + [p];
    var i :| 0 <= i < |next| && next[i] == c && forall k :: i < k < |next| ==> !Assigns(code, next[k], x);
    assert done[i] == c && forall k :: i < k < |done| ==> done[k] == next[k];
  }

  /** On a path to u, the row of a call that dominates u has not been assigned since the call. */
  lemma RowFresh(code: Code, path: seq<nat>, c: nat)
    requires DefsDominateUses(code) && RowsApart(code) && IsCall(code, c)
    requires IsPath(code, path) && Dom(code, c, Last(path))
    ensures Fresh(code, path, c, code[c].row)
  {
    var x := code[c].row;
    var j := LastOf(path, c);
    forall k | j < k < |path| ensures !Assigns(code, path[k], x) {
      if Assigns(code, path[k], x) {
        assert Of(x) in Uses(code[c]) && DominatesUse(code, path[k], c, x) && path[k] == path[j + 1..][k - j - 1];
        NotAgain(code, path, c, path[k], j);
        assert false;
      }
    }
  }

  /** Where the last c stands on a path, if its row is fresh. */
  lemma LastFresh(code: Code, done: seq<nat>, c: nat, x: Var) returns (j: nat)
    requires Fresh(code, done, c, x)
    ensures j < |done| && done[j] == c && c !in done[j + 1..]
    ensures forall k :: j < k < |done| ==> !Assigns(code, done[k], x)
  {
    j := LastOf(done, c);
    var i :| 0 <= i < |done| && done[i] == c && forall k :: i < k < |done| ==> !Assigns(code, done[k], x);
    NotLater(done, c, j, i);
  }

  /** Behind a repeated call, the row of the first one has not been assigned since that either. */
  lemma BothFresh(code: Code, path: seq<nat>, p: nat, q: nat)
    requires DefsDominateUses(code) && RowsApart(code) && SameKey(code, p, q) && FirstCalled(code, p, q)
    requires Feasible(code, path) && Dom(code, q, Last(path))
    ensures Fresh(code, path, p, code[p].row) && Fresh(code, path, q, code[q].row)
  {
    var x := code[p].row;
    RowFresh(code, path, q);
    var j := LastFresh(code, path, q, x);
    FeasiblePrefix(code, path, j + 1);
    var upTo := path[..j + 1];
    var i :| 0 <= i < |upTo| && upTo[i] == p && forall k :: i < k < |upTo| ==> !Assigns(code, upTo[k], x);
    forall k | i < k < |path| ensures !Assigns(code, path[k], x) {
      assert k <= j ==> upTo[k] == path[k];
    }
    assert path[i] == p;
  }

  /** The result of a call whose row is fresh is what the call would give now. */
  lemma ResultStays(it: Interp, code: Code, run: seq<State>, c: nat)
    requires IsRun(it, code, run) && IsCall(code, c) && SingleDefs(code) && RowsApart(code)
    requires Fresh(code, Pcs(run)[..|run| - 1], c, code[c].row)
    ensures Get(Now(run).env, code[c].dst) == it.eval(code[c].fn, Get(Now(run).env, code[c].row)).0
  {
    var n := |run| - 1;
    var done := Pcs(run)[..n];
    var j := LastFresh(code, done, c, code[c].row);
    CallLeaves(it, code, run, j);
    assert code[c].dst in Defs(code[c]);
    forall k | j + 1 <= k < n
      ensures !Assigns(code, Pcs(run)[k], code[c].dst) && !Assigns(code, Pcs(run)[k], code[c].row)
    {
      assert Pcs(run)[k] == done[k] && done[k] == done[j + 1..][k - j - 1];
    }
    ValueStays(it, code, run, j + 1, n, code[c].dst);
    ValueStays(it, code, run, j + 1, n, code[c].row);
  }

  /** Behind both calls their results are the same. */
  lemma ResultsSame(it: Interp, code: Code, run: seq<State>, p: nat, q: nat)
    requires IsRun(it, code, run) && SingleDefs(code) && RowsApart(code) && SameKey(code, p, q)
    requires Fresh(code, Pcs(run)[..|run| - 1], p, code[p].row) && Fresh(code, Pcs(run)[..|run| - 1], q, code[q].row)
    ensures Get(Now(run).env, code[p].dst) == Get(Now(run).env, code[q].dst)
  {
    ResultStays(it, code, run, p);
    ResultStays(it, code, run, q);
  }

  // ----- the flag of the first call -----

  /** The slot of p holds the flag that the call at q gives. */
  ghost predicate FlagIn(it: Interp, code: Code, p: nat, q: nat, s: State)
    requires IsCall(code, p) && IsCall(code, q) && s.Running?
  {
    Get(s.slots, code[p].slot) == it.eval(code[q].fn, Get(s.env, code[q].row)).1
  }

  /** In every run it does, whenever control is at q. */
  ghost predicate FlagThere(code: Code, p: nat, q: nat)
    requires IsCall(code, p) && IsCall(code, q)
  {
    forall it, run :: IsRun(it, code, run) && Now(run).pc == q ==> FlagIn(it, code, p, q, Now(run))
  }

  /** What the slot was given by a call with the same key, it still holds. */
  lemma WrittenFlag(it: Interp, code: Code, run: seq<State>, p: nat, i: nat)
    requires IsRun(it, code, run) && IsCall(code, p) && RowsApart(code) && Now(run).pc != p
    requires LastWrite(code, Pcs(run), i, code[p].slot) && SameKey(code, Pcs(run)[i], p)
    requires Fresh(code, Pcs(run), p, code[p].row)
    ensures Get(Now(run).slots, code[p].slot) == it.eval(code[p].fn, Get(Now(run).env, code[p].row)).1
  {
    var n, x := |run| - 1, code[p].row;
    var j := LastFresh(code, Pcs(run), p, x);
    assert j <= i by {
      assert Writes(code, Pcs(run)[j], code[p].slot);
    }
    CallLeaves(it, code, run, i);
    SlotStays(it, code, run, i + 1, n, code[p].slot);
    ValueStays(it, code, run, i + 1, n, x);
  }

  lemma FalseSince(it: Interp, code: Code, run: seq<State>, p: nat, j: nat)
    requires IsRun(it, code, run) && IsCall(code, p) && RowsApart(code) && j < |run| && Pcs(run)[j] == p
    requires FoundFalse(code, Pcs(run), j + 1, code[p].slot)
    requires forall k :: j < k < |run| ==> !Assigns(code, Pcs(run)[k], code[p].row)
    ensures it.eval(code[p].fn, Get(Now(run).env, code[p].row)).1 == 0
  {
    FalseThen(it, code, run, j + 1, code[p].slot);
    CallLeaves(it, code, run, j);
    ValueStays(it, code, run, j + 1, |run| - 1, code[p].row);
  }

  /** A flag that was found false is false for the same row. */
  lemma FalseFlag(it: Interp, code: Code, run: seq<State>, p: nat)
    requires IsRun(it, code, run) && IsCall(code, p) && RowsApart(code)
    requires WasFalse(code, Pcs(run), p) && Fresh(code, Pcs(run), p, code[p].row)
    ensures it.eval(code[p].fn, Get(Now(run).env, code[p].row)).1 == 0
  {
    var x, path := code[p].row, Pcs(run);
    var j :| 0 <= j < |path| && path[j] == p && FoundFalse(code, path, j + 1, code[p].slot) &&
             forall k :: j < k < |path| ==> path[k] != p;
    var i := LastFresh(code, path, p, x);
    NotLater(path, p, i, j);
    FalseSince(it, code, run, p, j);
  }

  lemma FalseSlot(it: Interp, code: Code, run: seq<State>, slot: Slot)
    requires IsRun(it, code, run) && StillFalse(code, Pcs(run), slot)
    ensures Get(Now(run).slots, slot) == 0
  {
    var n, path := |run| - 1, Pcs(run);
    var m :| FoundFalse(code, path, m, slot) && forall k :: m < k < |path| - 1 ==> !Writes(code, path[k], slot);
    FalseThen(it, code, run, m, slot);
    SlotStays(it, code, run, m, n, slot);
  }

  /** The condition on paths is enough. */
  lemma KeptIsThere(code: Code, p: nat, q: nat)
    requires Formed(code, q) && Repeats(code, p, q) && FirstCalled(code, p, q) && FlagKept(code, p, q)
    ensures FlagThere(code, p, q)
  {
    forall it, run | IsRun(it, code, run) && Now(run).pc == q ensures FlagIn(it, code, p, q, Now(run)) {
      var path := Pcs(run);
      RunIsFeasible(it, code, run);
      assert HoldsFlag(code, path, p) && Fresh(code, path, p, code[p].row);
      if WrittenAlike(code, path, p) {
        var i :| LastWrite(code, path, i, code[p].slot) && SameKey(code, path[i], p);
        WrittenFlag(it, code, run, p, i);
      } else {
        FalseSlot(it, code, run, code[p].slot);
        FalseFlag(it, code, run, p);
      }
    }
  }

  // ----- the two runs -----

  /** What the simulation needs of a repeated call. */
  ghost predicate Simulated(code: Code, p: nat, q: nat) {
    && Formed(code, q) && Repeats(code, p, q)
    && FirstCalled(code, p, q) && UsedElsewhere(code, p, q) && SlotFree(code, p, q)
  }

  /** The slot of q holds what q wrote. */
  ghost predicate Unwritten(code: Code, q: nat, done: seq<nat>)
    requires IsCall(code, q)
  {
    exists i :: 0 <= i < |done| && done[i] == q && forall k :: i < k < |done| ==> !Writes(code, done[k], code[q].slot)
  }

  lemma UnwrittenNext(code: Code, q: nat, done: seq<nat>, u: nat)
    requires IsCall(code, q)
    ensures Unwritten(code, q, done + [u]) <==> u == q || (Unwritten(code, q, done) && !Writes(code, u, code[q].slot))
  {
    var next := done + [u];
    if Unwritten(code, q, next) {
      var i :| 0 <= i < |next| && next[i] == q && forall k :: i < k < |next| ==> !Writes(code, next[k], code[q].slot);
      if i < |done| {
        assert done[i] == q && forall k :: i < k < |done| ==> done[k] == next[k];
        assert next[|done|] == u;
      }
    }
    if u == q {
      assert next[|done|] == q;
    } else if Unwritten(code, q, done) && !Writes(code, u, code[q].slot) {
      var i :| 0 <= i < |done| && done[i] == q && forall k :: i < k < |done| ==> !Writes(code, done[k], code[q].slot);
      assert next[i] == q;
    }
  }

  /** The runs agree but for the result of the call at q and, if `stale`, for its slot. */
  ghost predicate Alike(code: Code, q: nat, stale: bool, s: State, t: State)
    requires IsCall(code, q)
  {
    && s.Running? && t.Running? && s.pc == t.pc && s.from == t.from && s.mem == t.mem
    && (forall x :: x != code[q].dst ==> Get(s.env, x) == Get(t.env, x))
    && (forall x :: x != code[q].slot || !stale ==> Get(s.slots, x) == Get(t.slots, x))
  }

  ghost predicate IsStale(code: Code, p: nat, q: nat, done: seq<nat>)
    requires IsCall(code, p) && IsCall(code, q)
  {
    code[p].slot != code[q].slot && Unwritten(code, q, done)
  }

  /** After the steps of the run, on which the flag was there, the other run is in state t. */
  ghost predicate Matches(it: Interp, code: Code, p: nat, q: nat, run: seq<State>, t: State)
    requires IsCall(code, p) && IsCall(code, q)
  {
    && IsRun(it, code, run) && (forall k :: 0 <= k < |run| && run[k].pc == q ==> FlagIn(it, code, p, q, run[k]))
    && Alike(code, q, IsStale(code, p, q, Pcs(run)[..|run| - 1]), Now(run), t)
  }

  lemma PathDone(path: seq<nat>)
    requires path != []
    ensures path[..|path| - 1] + [Last(path)] == path
  {
  }

  /** An operand has the value of the original one. */
  lemma ReadsSame(it: Interp, code: Code, p: nat, q: nat, run: seq<State>, t: State, o: Operand)
    requires Simulated(code, p, q) && Matches(it, code, p, q, run, t)
    requires Now(run).pc < |code| && o in Uses(code[Now(run).pc])
    ensures Read(Rewritten(o, SameBlock(code, Now(run).pc, p), code[p].dst, code[q].dst), t.env, t.entry) ==
            Read(o, Now(run).env, Now(run).entry)
  {
    var path, u := Pcs(run), Now(run).pc;
    RunIsFeasible(it, code, run);
    assert Reached(code, u);
    assert o.Of?;
    if o.x == code[q].dst {
      assert o.x in Defs(code[q]) && DominatesUse(code, q, u, o.x);
      BothFresh(code, path, p, q);
      PathDone(path);
      StillFresh(code, path[..|path| - 1], p, u, code[p].row);
      StillFresh(code, path[..|path| - 1], q, u, code[q].row);
      ResultsSame(it, code, run, p, q);
      assert code[p].dst in Defs(code[p]) && code[p].dst != code[q].dst;
    }
  }

  /** So has an operand of a phi. */
  lemma FlowsSame(it: Interp, code: Code, p: nat, q: nat, run: seq<State>, t: State, x: Var)
    requires Simulated(code, p, q) && Matches(it, code, p, q, run, t) && FlowsIn(code, Now(run).pc, Now(run).from, x)
    ensures Get(t.env, Renamed(x, code[p].dst, code[q].dst)) == Get(Now(run).env, x)
  {
    if x == code[q].dst {
      var f := Now(run).from;
      assert x in Defs(code[q]) && DominatesFlow(code, q, Now(run).pc, f, x);
      RunIsPath(it, code, run);
      RunPrefix(it, code, run, |run| - 1);
      RunIsFeasible(it, code, run[..|run| - 1]);
      BothFresh(code, Pcs(run)[..|run| - 1], p, q);
      ResultsSame(it, code, run, p, q);
      assert code[p].dst in Defs(code[p]) && code[p].dst != code[q].dst;
    }
  }

  lemma WrittenSince(code: Code, path: seq<nat>, i: nat, p: nat, q: nat) returns (k: nat)
    requires IsCall(code, p) && IsCall(code, q) && SlotFree(code, p, q) && code[p].slot != code[q].slot
    requires ReadAgain(code, path, i, q)
    ensures i < k < |path| - 1 && Writes(code, path[..|path| - 1][k], code[q].slot)
  {
    k :| i < k < |path| - 1 && Writes(code, path[k], code[q].slot);
  }

  /** Where a load other than the one behind q reads the slot of q, it is the same. */
  lemma NotStale(code: Code, p: nat, q: nat, path: seq<nat>)
    requires IsCall(code, p) && IsCall(code, q) && SlotFree(code, p, q) && Feasible(code, path) && Last(path) != q + 1
    requires Reads(code, Last(path), code[q].slot)
    ensures !IsStale(code, p, q, path[..|path| - 1])
  {
    var done := path[..|path| - 1];
    if IsStale(code, p, q, done) {
      var i :| 0 <= i < |done| && done[i] == q && forall k :: i < k < |done| ==> !Writes(code, done[k], code[q].slot);
      assert ReadAgain(code, path, i, q);
      var k := WrittenSince(code, path, i, p, q);
      assert false;
    }
  }

  /** The load behind q, which reads the slot of p, gives the same. */
  lemma LoadSame(it: Interp, code: Code, p: nat, q: nat, run: seq<State>, t: State)
    requires Simulated(code, p, q) && Matches(it, code, p, q, run, t) && Now(run).pc == q + 1
    ensures Get(t.slots, code[p].slot) == Get(Now(run).slots, code[q].slot)
  {
    var n := |run| - 1;
    RunIsPath(it, code, run);
    LoadBehind(code, Pcs(run), q);
    RunPrefix(it, code, run, n);
    assert Follows(it, code, run, n - 1);
    assert Now(run[..n]) == run[n - 1];
    CallLeaves(it, code, run, n - 1);
  }

  lemma LoadBehind(code: Code, path: seq<nat>, q: nat)
    requires EntersAtStarts(code) && IsPath(code, path) && IsCall(code, q) && Last(path) == q + 1
    ensures |path| > 1 && path[|path| - 2] == q
  {
    assert Edge(code, path[|path| - 2], path[|path| - 1]);
    assert BlockStart(code, q + 1) <= q;
  }

  lemma {:induction false} SetAllAgree(a: map<Var, Value>, b: map<Var, Value>, xs: seq<Var>, vs: seq<Value>, but: Var)
    requires |xs| == |vs| && forall x :: x != but ==> Get(a, x) == Get(b, x)
    ensures forall x :: x != but ==> Get(SetAll(a, xs, vs), x) == Get(SetAll(b, xs, vs), x)
    decreases |xs|
  {
    if xs == [] {
    } else {
      SetAllAgree(Set(a, xs[0], vs[0]), Set(b, xs[0], vs[0]), xs[1..], vs[1..], but);
    }
  }

  /** The next states are alike, or the same end. */
  ghost predicate AlikeOrSame(code: Code, q: nat, stale: bool, s: State, t: State)
    requires IsCall(code, q)
  {
    if s.Running? then Alike(code, q, stale, s, t) else t == s
  }

  lemma PhiStep(it: Interp, code: Code, s: State)
    requires s.Running? && s.pc < |code| && code[s.pc].Phi?
    ensures var i := code[s.pc];
            Step(it, code, s) ==
            if s.from in i.incoming && |i.incoming[s.from]| == |i.dsts|
            then s.(pc := s.pc + 1, from := s.pc, env := SetAll(s.env, i.dsts, GetAll(s.env, i.incoming[s.from])))
            else Stuck
  {
  }

  /** With the same operands, the phis of a block give the same. */
  lemma PhisSame(it: Interp, code: Code, p: nat, q: nat, ls: seq<bool>, stale: bool, s: State, t: State)
    requires IsCall(code, p) && IsCall(code, q) && q + 1 < |code| && code[q + 1].LoadNull? && |ls| == |code|
    requires Alike(code, q, stale, s, t) && s.pc < |code| && code[s.pc].Phi?
    requires forall x :: FlowsIn(code, s.pc, s.from, x) ==>
               Get(t.env, Renamed(x, code[p].dst, code[q].dst)) == Get(s.env, x)
    ensures AlikeOrSame(code, q, stale, Step(it, code, s), Step(it, ReplacedWith(code, p, q, ls), t))
  {
    var dsts, incoming, r := code[s.pc].dsts, code[s.pc].incoming, ReplacedWith(code, p, q, ls);
    assert r[s.pc] == RewriteUses(code[s.pc], ls[s.pc], code[p].dst, code[q].dst);
    PhiStep(it, code, s);
    PhiStep(it, r, t);
    if s.from in incoming && |incoming[s.from]| == |dsts| {
      var xs := incoming[s.from];
      assert forall x :: x in xs ==> FlowsIn(code, s.pc, s.from, x);
      assert GetAll(t.env, RenamedAll(xs, code[p].dst, code[q].dst)) == GetAll(s.env, xs);
      SetAllAgree(s.env, t.env, dsts, GetAll(s.env, xs), code[q].dst);
    }
  }

  /** With the same operands, an instruction other than a phi does the same; `stale` says it of the slot of q before,
      `after` behind the instruction. */
  lemma OperandsSame(it: Interp, code: Code, p: nat, q: nat, ls: seq<bool>, stale: bool, after: bool, s: State,
                     t: State)
    requires IsCall(code, p) && IsCall(code, q) && q + 1 < |code| && code[q + 1].LoadNull? && |ls| == |code|
    requires Alike(code, q, stale, s, t) && s.pc < |code| && !code[s.pc].Phi? && RowsApart(code)
    requires forall o :: o in Uses(code[s.pc]) ==>
               Read(Rewritten(o, ls[s.pc], code[p].dst, code[q].dst), t.env, t.entry) == Read(o, s.env, s.entry)
    requires code[s.pc].LoadNull? ==>
               Get(t.slots, if s.pc == q + 1 then code[p].slot else code[s.pc].slot) == Get(s.slots, code[s.pc].slot)
    requires s.pc == q ==> after || Get(t.slots, code[q].slot) == it.eval(code[q].fn, Get(s.env, code[q].row)).1
    requires s.pc != q ==> after || !stale || Writes(code, s.pc, code[q].slot)
    ensures AlikeOrSame(code, q, after, Step(it, code, s), Step(it, ReplacedWith(code, p, q, ls), t))
  {
    var src, dst := code[p].dst, code[q].dst;
    match code[s.pc]
    case Call(d, fn, row, slot) =>
      assert Of(row) in Uses(code[s.pc]);
    case StoreNull(slot, value) =>
      assert value in Uses(code[s.pc]);
    case Op(d, op, args) =>
      assert ReadAll(RewrittenAll(args, ls[s.pc], src, dst), t.env, t.entry) == ReadAll(args, s.env, s.entry);
    case Branch(cond, yes, no) =>
      assert cond in Uses(code[s.pc]);
    case Ret(result) =>
      assert result in Uses(code[s.pc]);
    case _ =>
  }

  lemma OthersSame(it: Interp, code: Code, p: nat, q: nat, run: seq<State>, t: State)
    requires Simulated(code, p, q) && Matches(it, code, p, q, run, t)
    requires Now(run).pc < |code| && !code[Now(run).pc].Phi?
    ensures AlikeOrSame(code, q, IsStale(code, p, q, Pcs(run)), Step(it, code, Now(run)),
            Step(it, Replaced(code, p, q), t))
  {
    var s, path := Now(run), Pcs(run);
    RunIsPath(it, code, run);
    PathDone(path);
    UnwrittenNext(code, q, path[..|run| - 1], s.pc);
    RunIsFeasible(it, code, run);
    forall o | o in Uses(code[s.pc])
      ensures Read(Rewritten(o, SameBlock(code, s.pc, p), code[p].dst, code[q].dst), t.env, t.entry) ==
              Read(o, s.env, s.entry)
    {
      ReadsSame(it, code, p, q, run, t, o);
    }
    if s.pc == q + 1 {
      LoadSame(it, code, p, q, run, t);
    } else if code[s.pc].LoadNull? && code[s.pc].slot == code[q].slot {
      NotStale(code, p, q, path);
    }
    OperandsSame(it, code, p, q, Locals(code, p), IsStale(code, p, q, path[..|run| - 1]), IsStale(code, p, q, path), s,
    t);
  }

  /** The same step leaves the runs alike. */
  lemma StepSame(it: Interp, code: Code, p: nat, q: nat, run: seq<State>, t: State)
    requires Simulated(code, p, q) && Matches(it, code, p, q, run, t)
    ensures AlikeOrSame(code, q, IsStale(code, p, q, Pcs(run)), Step(it, code, Now(run)),
            Step(it, Replaced(code, p, q), t))
  {
    var s, path := Now(run), Pcs(run);
    RunIsPath(it, code, run);
    PathDone(path);
    UnwrittenNext(code, q, path[..|run| - 1], s.pc);
    if s.pc < |code| {
      if code[s.pc].Phi? {
        forall x | FlowsIn(code, s.pc, s.from, x)
          ensures Get(t.env, Renamed(x, code[p].dst, code[q].dst)) == Get(s.env, x)
        {
          FlowsSame(it, code, p, q, run, t, x);
        }
        PhisSame(it, code, p, q, Locals(code, p), IsStale(code, p, q, path[..|run| - 1]), s, t);
      } else {
        OthersSame(it, code, p, q, run, t);
      }
    }
  }

  /** So the runs stay alike. */
  lemma MatchesNext(it: Interp, code: Code, p: nat, q: nat, run: seq<State>, t: State)
    requires Simulated(code, p, q) && Matches(it, code, p, q, run, t)
    requires var s := Step(it, code, Now(run));
             s.Running? && s.pc == q ==> FlagIn(it, code, p, q, s)
    ensures var s', t' := Step(it, code, Now(run)), Step(it, Replaced(code, p, q), t);
            if s'.Running? then Matches(it, code, p, q, run + [s'], t') else t' == s'
  {
    StepSame(it, code, p, q, run, t);
    var s' := Step(it, code, Now(run));
    if s'.Running? {
      RunExtends(it, code, run);
      assert Pcs(run + [s'])[..|run|] == Pcs(run);
    }
  }

  /** The states are those of some matching run, or the same. */
  ghost predicate Corresponds(it: Interp, code: Code, p: nat, q: nat, s: State, t: State)
    requires IsCall(code, p) && IsCall(code, q)
  {
    if s.Running? then exists run :: Matches(it, code, p, q, run, t) && Now(run) == s else t == s
  }

  lemma CorrespondsNext(it: Interp, code: Code, p: nat, q: nat, s: State, t: State)
    requires Simulated(code, p, q) && FlagThere(code, p, q) && Corresponds(it, code, p, q, s, t)
    ensures Corresponds(it, code, p, q, Step(it, code, s), Step(it, Replaced(code, p, q), t))
  {
    if s.Running? {
      var run :| Matches(it, code, p, q, run, t) && Now(run) == s;
      if Step(it, code, s).Running? {
        RunExtends(it, code, run);
        assert Now(run + [Step(it, code, s)]) == Step(it, code, s);
      }
      MatchesNext(it, code, p, q, run, t);
    }
  }

  lemma {:induction false} RunsCorrespond(it: Interp, code: Code, r: Code, p: nat, q: nat, start: State, n: nat)
    requires IsCall(code, p) && IsCall(code, q) && Corresponds(it, code, p, q, start, start)
    requires forall s, t :: Corresponds(it, code, p, q, s, t) ==>
               Corresponds(it, code, p, q, Step(it, code, s), Step(it, r, t))
    ensures Corresponds(it, code, p, q, Steps(it, code, start, n), Steps(it, r, start, n))
  {
    if n == 0 {
      assert Steps(it, code, start, n) == start == Steps(it, r, start, n);
    } else {
      RunsCorrespond(it, code, r, p, q, start, n - 1);
      assert Corresponds(it, code, p, q, Steps(it, code, start, n - 1), Steps(it, r, start, n - 1));
    }
  }

  lemma StepsCorrespond(it: Interp, code: Code, p: nat, q: nat, start: State, n: nat)
    requires Simulated(code, p, q) && FlagThere(code, p, q)
    requires start.Running? && start == Start(start.env, start.slots, start.mem)
    ensures Corresponds(it, code, p, q, Steps(it, code, start, n), Steps(it, Replaced(code, p, q), start, n))
  {
    assert IsRun(it, code, [start]) && Now([start]) == start;
    assert Matches(it, code, p, q, [start], start);
    forall s, t | Corresponds(it, code, p, q, s, t)
      ensures Corresponds(it, code, p, q, Step(it, code, s), Step(it, Replaced(code, p, q), t))
    {
      CorrespondsNext(it, code, p, q, s, t);
    }
    RunsCorrespond(it, code, Replaced(code, p, q), p, q, start, n);
  }

  /** Replacing the call keeps what the function does on every input, if the flag is there in every run. */
  lemma SimulationSound(code: Code, p: nat, q: nat)
    requires Simulated(code, p, q) && FlagThere(code, p, q)
    ensures Equivalent(code, Replaced(code, p, q))
  {
    forall it, params, slots, mem, n: nat
      ensures Observe(Steps(it, code, Start(params, slots, mem), n)) ==
              Observe(Steps(it, Replaced(code, p, q), Start(params, slots, mem), n))
    {
      StepsCorrespond(it, code, p, q, Start(params, slots, mem), n);
    }
  }

  /** The same under the condition on paths. */
  lemma ReplacementSound(code: Code, p: nat, q: nat)
    requires Eliminable(code, q) && Repeats(code, p, q)
    ensures Equivalent(code, Replaced(code, p, q))
  {
    assert Replaceable(code, p, q);
    KeptIsThere(code, p, q);
    SimulationSound(code, p, q);
  }
}
