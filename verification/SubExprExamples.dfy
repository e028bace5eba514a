/** Code that be/src/codegen/subexpr-elimination.cc rewrites well, and code that it changes. */
module SubExprExamples {
  import opened CodegenIr
  import opened CodegenRuns
  import opened SubExprForm
  import opened SubExprKept
  import opened SubExprExact

  // ----- single steps -----

  lemma CallStep(it: Interp, code: Code, s: State)
    requires s.Running? && s.pc < |code| && code[s.pc].Call?
    ensures var i := code[s.pc];
            var r := it.eval(i.fn, Get(s.env, i.row));
            Step(it, code, s) ==
            s.(pc := s.pc + 1, from := s.pc, env := Set(s.env, i.dst, r.0), slots := Set(s.slots, i.slot, r.1))
  {
  }

  lemma LoadStep(it: Interp, code: Code, s: State)
    requires s.Running? && s.pc < |code| && code[s.pc].LoadNull?
    ensures var i := code[s.pc];
            Step(it, code, s) == s.(pc := s.pc + 1, from := s.pc, env := Set(s.env, i.dst, Get(s.slots, i.slot)))
  {
  }

  lemma ErasedStep(it: Interp, code: Code, s: State)
    requires s.Running? && s.pc < |code| && code[s.pc].Erased?
    ensures Step(it, code, s) == s.(pc := s.pc + 1, from := s.pc)
  {
  }

  lemma RetStep(it: Interp, code: Code, s: State)
    requires s.Running? && s.pc < |code| && code[s.pc].Ret?
    ensures Step(it, code, s) == Returned(Read(code[s.pc].result, s.env, s.entry), s.mem)
  {
  }

  lemma FourSteps(it: Interp, code: Code, s: State)
    ensures Steps(it, code, s, 4) == Step(it, code, Step(it, code, Step(it, code, Step(it, code, s))))
  {
    assert Steps(it, code, s, 1) == Step(it, code, Steps(it, code, s, 0));
    assert Steps(it, code, s, 2) == Step(it, code, Steps(it, code, s, 1));
    assert Steps(it, code, s, 3) == Step(it, code, Steps(it, code, s, 2));
  }

  lemma FiveSteps(it: Interp, code: Code, s: State)
    ensures Steps(it, code, s, 5) == Step(it, code, Step(it, code, Step(it, code, Step(it, code, Step(it, code, s)))))
  {
    FourSteps(it, code, s);
  }

  /** Every registered call gives 5. */
  function Fives(): Interp {
    Interp((f, x) => (5, 0), (op, xs, mem) => (0, mem))
  }

  function Begin(): State {
    Start(map[], map[], map[])
  }

  lemma Differ(a: Code, b: Code, n: nat)
    requires Observe(Steps(Fives(), a, Begin(), n)) != Observe(Steps(Fives(), b, Begin(), n))
    ensures !Equivalent(a, b)
  {
  }

  // ----- a first call that does not dominate -----

  /** Two arms of a branch call the same function with the same row; neither call dominates the other. */
  function TwoArms(): Code {
    [Branch(Of(0), 1, 4), Call(1, 7, 9, 0), LoadNull(2, 0), Ret(Of(1)), Call(3, 7, 9, 1), LoadNull(4, 1), Ret(Of(3))]
  }

  /** The second arm, taken with the call or without it. */
  lemma SecondArm(code: Code)
    requires |code| == 7 && code[0] == TwoArms()[0] && (code[4] == TwoArms()[4] || code[4] == Erased)
    requires code[5].LoadNull? && code[5].dst == 4 && code[6].Ret? && code[6].result.Of? && code[6].result.x != 4
    ensures var x := code[6].result.x;
            Observe(Steps(Fives(), code, Begin(), 4)) == View.Value(if code[4].Call? && x == 3 then 5 else 0, map[])
  {
    var it, s := Fives(), Begin();
    var s1 := Step(it, code, s);
    assert s1 == s.(pc := 4, from := 0);
    if code[4].Call? {
      CallStep(it, code, s1);
    } else {
      ErasedStep(it, code, s1);
    }
    var s2 := Step(it, code, s1);
    LoadStep(it, code, s2);
    var s3 := Step(it, code, s2);
    RetStep(it, code, s3);
    FourSteps(it, code, s);
  }

  lemma TwoArmsReplaced()
    ensures var r := Replaced(TwoArms(), 1, 4);
            r[0] == TwoArms()[0] && r[4] == Erased && r[5] == LoadNull(4, 0) && r[6] == Ret(Of(1))
  {
    assert BlockStart(TwoArms(), 6) == BlockStart(TwoArms(), 5) == BlockStart(TwoArms(), 4) == 4;
  }

  /** The first call must dominate the other: without that, replacing it changes the result. */
  lemma DominanceNeeded()
    ensures SameKey(TwoArms(), 1, 4) && !Equivalent(TwoArms(), Replaced(TwoArms(), 1, 4))
  {
    TwoArmsReplaced();
    SecondArm(TwoArms());
    SecondArm(Replaced(TwoArms(), 1, 4));
    Differ(TwoArms(), Replaced(TwoArms(), 1, 4), 4);
  }

  // ----- what can be read off the instructions -----

  /** The value of instruction k is k + 1, parameters have larger numbers; an operand is the value of an instruction
      before or a parameter, a row is a parameter, and behind a call its slot is loaded. */
  ghost predicate ListedAt(code: Code, k: nat)
    requires k < |code|
  {
    && (forall x :: x in Defs(code[k]) ==> x == k + 1)
    && (forall o :: o in Uses(code[k]) ==> o.Of? && (o.x <= k || |code| < o.x))
    && (code[k].Call? ==>
          && |code| < code[k].row && k + 1 < |code| && code[k + 1].LoadNull? && code[k + 1].slot == code[k].slot)
  }

  ghost predicate Listed(code: Code) {
    forall k :: 0 <= k < |code| ==> ListedAt(code, k)
  }

  lemma ListedForm(code: Code)
    requires Listed(code)
    ensures SingleDefs(code) && RowsApart(code) && FollowedByLoad(code, 0) && Plain(code)
  {
    forall p, q, x | 0 <= p < |code| && 0 <= q < |code| && x in Defs(code[p]) && x in Defs(code[q]) ensures p == q {
      assert ListedAt(code, p) && ListedAt(code, q);
    }
    forall p, q | IsCall(code, p) && IsCall(code, q) ensures code[p].row != code[q].dst {
      assert ListedAt(code, p) && ListedAt(code, q) && code[q].dst in Defs(code[q]);
    }
    forall p | IsCall(code, p) ensures p + 1 < |code| && code[p + 1].LoadNull? && code[p + 1].slot == code[p].slot {
      assert ListedAt(code, p);
    }
    forall u, x | 0 <= u < |code| ensures LiveIn(x) !in Uses(code[u]) {
      assert ListedAt(code, u);
    }
  }

  // ----- code that goes through its instructions in their order -----

  ghost predicate Linear(code: Code) {
    forall k, j :: Edge(code, k, j) ==> j == k + 1
  }

  lemma {:induction false} LinearPath(code: Code, path: seq<nat>, k: nat)
    requires Linear(code) && IsPath(code, path) && k < |path|
    ensures path[k] == k
  {
    if k == 0 {
      assert path[0] == 0;
    } else {
      LinearPath(code, path, k - 1);
      assert Edge(code, path[k - 1], path[k]);
    }
  }

  lemma LinearDom(code: Code, a: nat, b: nat)
    requires Linear(code) && a <= b
    ensures Dom(code, a, b)
  {
    forall path | IsPath(code, path) && Last(path) == b ensures a in path {
      LinearPath(code, path, |path| - 1);
      LinearPath(code, path, a);
      assert path[a] == a;
    }
  }

  lemma LinearFormed(code: Code)
    requires Linear(code) && Listed(code) && forall k :: 0 <= k < |code| ==> !code[k].Phi?
    ensures Formed(code, 0) && forall p, q :: Repeats(code, p, q) ==> FirstCalled(code, p, q)
  {
    ListedForm(code);
    forall d: nat, u: nat, x ensures DominatesUse(code, d, u, x) {
      if d < |code| && u < |code| && x in Defs(code[d]) && Of(x) in Uses(code[u]) {
        assert ListedAt(code, d) && ListedAt(code, u);
        LinearDom(code, d, u);
      }
    }
    forall p, q | Repeats(code, p, q) ensures FirstCalled(code, p, q) {
      LinearDom(code, p, q);
      DominatingSuffices(code, p, q);
    }
  }

  // ----- two calls in one block -----

  /** One block that calls a function twice with the same row. */
  function OneBlock(): Code {
    [Call(1, 7, 9, 0), LoadNull(2, 0), Call(3, 7, 9, 1), LoadNull(4, 1), Ret(Of(3))]
  }

  lemma OneBlockAt(k: nat)
    requires k < 5
    ensures ListedAt(OneBlock(), k) && !OneBlock()[k].Phi? && forall j :: Edge(OneBlock(), k, j) ==> j == k + 1
    ensures IsCall(OneBlock(), k) <==> k == 0 || k == 2
  {
  }

  lemma OneBlockFormed()
    ensures Formed(OneBlock(), 0) && Linear(OneBlock()) && Repeats(OneBlock(), 0, 2) && FirstCalled(OneBlock(), 0, 2)
  {
    forall k: nat | k < 5
      ensures ListedAt(OneBlock(), k) && !OneBlock()[k].Phi? && forall j :: Edge(OneBlock(), k, j) ==> j == k + 1
    {
      OneBlockAt(k);
    }
    LinearFormed(OneBlock());
  }

  lemma OneBlockKept()
    ensures FlagKept(OneBlock(), 0, 2) && SlotFree(OneBlock(), 0, 2)
  {
    var code := OneBlock();
    OneBlockFormed();
    forall path | Feasible(code, path) && Last(path) == 2 ensures HoldsFlag(code, path, 0) {
      LinearPath(code, path, |path| - 1);
      LinearPath(code, path, 0);
      LinearPath(code, path, 1);
      assert LastWrite(code, path, 0, 0) && SameKey(code, path[0], 0);
    }
    forall path, i ensures !ReadAgain(code, path, i, 2) {
      if ReadAgain(code, path, i, 2) {
        LinearPath(code, path, i);
        LinearPath(code, path, |path| - 1);
        OneBlockAt(Last(path));
        assert false;
      }
    }
  }

  lemma OneBlockStarts()
    ensures SameBlock(OneBlock(), 2, 0) && SameBlock(OneBlock(), 4, 0)
  {
    var code := OneBlock();
    assert BlockStart(code, 1) == BlockStart(code, 0) == 0;
    assert BlockStart(code, 2) == BlockStart(code, 1);
    assert BlockStart(code, 3) == BlockStart(code, 2);
    assert BlockStart(code, 4) == BlockStart(code, 3);
  }

  /** The block, with the second call or without it. */
  lemma ThroughBlock(code: Code)
    requires |code| == 5 && code[0] == OneBlock()[0] && code[1] == OneBlock()[1]
    requires (code[2] == OneBlock()[2] || code[2] == Erased) && code[3].LoadNull? && code[3].dst == 4 && code[4].Ret?
    requires code[4].result == Of(3) || code[4].result.LiveIn?
    ensures Observe(Steps(Fives(), code, Begin(), 5)) ==
            View.Value(if code[2].Call? && code[4].result.Of? then 5 else 0, map[])
  {
    var it, s := Fives(), Begin();
    CallStep(it, code, s);
    var s1 := Step(it, code, s);
    LoadStep(it, code, s1);
    var s2 := Step(it, code, s1);
    if code[2].Call? {
      CallStep(it, code, s2);
    } else {
      ErasedStep(it, code, s2);
    }
    var s3 := Step(it, code, s2);
    LoadStep(it, code, s3);
    var s4 := Step(it, code, s3);
    RetStep(it, code, s4);
    FiveSteps(it, code, s);
  }

  lemma OneBlockReplaced()
    ensures var r := Replaced(OneBlock(), 0, 2);
            r[0] == OneBlock()[0] && r[1] == OneBlock()[1] && r[2] == Erased && r[3] == LoadNull(4, 0) &&
            r[4] == Ret(LiveIn(1))
  {
    OneBlockStarts();
  }

  /** The result of a repeated call must not be used in the block of the first: there the updater takes what comes in
      from the block's predecessors, here nothing, and the result changes. */
  lemma OneCallNeeded()
    ensures var code := OneBlock();
            && Formed(code, 0) && Repeats(code, 0, 2)
            && FirstCalled(code, 0, 2) && FlagKept(code, 0, 2) && SlotFree(code, 0, 2) && !OneCallPerBlock(code)
    ensures !Equivalent(OneBlock(), Replaced(OneBlock(), 0, 2))
  {
    OneBlockFormed();
    OneBlockKept();
    OneBlockStarts();
    OneBlockReplaced();
    ThroughBlock(OneBlock());
    ThroughBlock(Replaced(OneBlock(), 0, 2));
    Differ(OneBlock(), Replaced(OneBlock(), 0, 2), 5);
    assert IsCall(OneBlock(), 0) && IsCall(OneBlock(), 2);
  }

  // ----- a slot that another call has written -----

  function UpTo(n: nat): (path: seq<nat>)
    ensures |path| == n + 1 && forall k :: 0 <= k <= n ==> path[k] == k
  {
    seq(n + 1, k => k)
  }

  /** a IN (b, a), along the way that is taken if b is NULL: the three calls share the slot of the predicate. */
  function InList(): Code {
    [Call(1, 7, 20, 0), LoadNull(2, 0), Jump(3), Call(4, 8, 20, 0), LoadNull(5, 0), Jump(6),
     Call(7, 7, 20, 0), LoadNull(8, 0), Jump(9), Ret(Of(8))]
  }

  lemma InListAt(k: nat)
    requires k < 10
    ensures ListedAt(InList(), k) && !InList()[k].Phi? && forall j :: Edge(InList(), k, j) ==> j == k + 1
    ensures IsCall(InList(), k) <==> k in {0, 3, 6}
    ensures !InList()[k].StoreNull? && !InList()[k].Branch? && Of(7) !in Uses(InList()[k])
    ensures k < 9 ==> Edge(InList(), k, k + 1)
  {
  }

  lemma InListFormed()
    ensures Formed(InList(), 0) && Linear(InList()) && Repeats(InList(), 0, 6)
    ensures FirstCalled(InList(), 0, 6) && UsedElsewhere(InList(), 0, 6) && SlotFree(InList(), 0, 6)
  {
    forall k: nat | k < 10
      ensures ListedAt(InList(), k) && !InList()[k].Phi? && forall j :: Edge(InList(), k, j) ==> j == k + 1
      ensures Of(7) !in Uses(InList()[k])
    {
      InListAt(k);
    }
    LinearFormed(InList());
  }

  /** Where the flag that is returned comes from. */
  lemma FlagOfList(code: Code, w: nat)
    requires |code| == 10 && IsPath(code, UpTo(9)) && Straight(code, UpTo(9))
    requires LastWrite(code, UpTo(7), w, 0) && IsCall(code, w) && code[w].row == 20
    requires forall k: nat :: !Assigns(code, k, 20)
    requires code[7] == LoadNull(8, 0) && code[8] == Jump(9) && code[9] == Ret(Of(8))
    ensures Steps(Marking(8), code, Start(map[20 := 1], map[], map[]), 10) ==
            Returned(if code[w].fn == 8 then 1 else 0, map[])
  {
    var it, start := Marking(8), Start(map[20 := 1], map[], map[]);
    var run := StraightRun(it, code, UpTo(9), start);
    ValueStays(it, code, run, 0, w, 20);
    CallWrites(it, code, run, w);
    forall k | w + 1 <= k < 7 ensures !Writes(code, Pcs(run)[k], 0) {
      assert UpTo(7)[k] == k == Pcs(run)[k];
    }
    SlotStays(it, code, run, w + 1, 7, 0);
    assert Follows(it, code, run, 7) && Follows(it, code, run, 8);
    StateAfter(it, code, run, 9);
    MemoryStays(code, run, 8, 9);
    assert Steps(it, code, start, 10) == Step(it, code, run[9]);
  }

  lemma {:induction false} MemoryStays(code: Code, run: seq<State>, fn: Fn, n: nat)
    requires IsRun(Marking(fn), code, run) && n < |run|
    ensures run[n].mem == run[0].mem
  {
    if n == 0 {
    } else {
      MemoryStays(code, run, fn, n - 1);
      assert Follows(Marking(fn), code, run, n - 1);
    }
  }

  lemma InListReplaced(k: nat)
    requires k < 10
    ensures Replaced(InList(), 0, 6)[k] == if k == 6 then Erased else InList()[k]
  {
    InListAt(k);
    assert k != 6 && k != 7 ==> RewriteUses(InList()[k], Locals(InList(), 0)[k], 1, 7) == InList()[k];
  }

  lemma InListPaths(code: Code)
    requires |code| == 10 && forall k :: 0 <= k < 10 ==> code[k] == InList()[k] || (k == 6 && code[k] == Erased)
    ensures IsPath(code, UpTo(9)) && Straight(code, UpTo(9)) && forall k: nat :: !Assigns(code, k, 20)
  {
    forall k: nat | k < 10
      ensures (k < 9 ==> Edge(code, k, k + 1)) && !code[k].Branch? && !code[k].Phi? && !Assigns(code, k, 20)
    {
      InListAt(k);
    }
  }

  lemma InListWrites(code: Code)
    requires |code| == 10 && forall k :: 0 <= k < 10 ==> code[k] == InList()[k] || (k == 6 && code[k] == Erased)
    ensures LastWrite(code, UpTo(7), if code[6].Call? then 6 else 3, 0)
  {
    forall k: nat | k < 10 ensures Writes(code, k, 0) <==> k in {0, 3} || (k == 6 && code[6].Call?) {
      InListAt(k);
    }
  }

  lemma InListStale()
    ensures !FlagKept(InList(), 0, 6)
  {
    var code, path := InList(), UpTo(6);
    forall k: nat | k < 10
      ensures (k < 9 ==> Edge(code, k, k + 1)) && !code[k].Branch? && (Writes(code, k, 0) <==> k in {0, 3, 6})
    {
      InListAt(k);
    }
    assert IsPath(code, path) && Last(path) == 6;
    StraightFeasible(code, path);
    assert !WrittenAlike(code, path, 0) by {
      forall i | LastWrite(code, path, i, 0) ensures i == 3 {
        assert Writes(code, path[3], 0);
      }
    }
    assert !StillFalse(code, path, 0);
  }

  lemma InListDiffers()
    ensures !Equivalent(InList(), Replaced(InList(), 0, 6))
  {
    var code, r := InList(), Replaced(InList(), 0, 6);
    forall k: nat | k < 10 ensures r[k] == if k == 6 then Erased else code[k] {
      InListReplaced(k);
    }
    InListPaths(code);
    InListPaths(r);
    InListWrites(code);
    InListWrites(r);
    FlagOfList(code, 6);
    FlagOfList(r, 3);
    SeenDifferent(Marking(8), code, r, Start(map[20 := 1], map[], map[]), 10);
  }

  /** The slot of the first call must hold its flag: here it holds that of b, and the result changes. */
  lemma FlagNeeded()
    ensures var code := InList();
            && Formed(code, 0) && Repeats(code, 0, 6)
            && FirstCalled(code, 0, 6) && UsedElsewhere(code, 0, 6) && SlotFree(code, 0, 6)
    ensures !FlagKept(InList(), 0, 6) && !Equivalent(InList(), Replaced(InList(), 0, 6))
  {
    InListFormed();
    InListStale();
    InListDiffers();
  }

  // ----- a slot that is read again -----

  /** sum(a), sum(a * c), along the way that is taken if a is NULL: the second a has the slot of the product, which the
      caller loads again. */
  function SumTwice(): Code {
    [Call(1, 7, 20, 0), LoadNull(2, 0), Jump(3), Call(4, 7, 20, 1), LoadNull(5, 1), Jump(6), LoadNull(7, 1), Ret(Of(7))]
  }

  lemma SumTwiceAt(k: nat)
    requires k < 8
    ensures ListedAt(SumTwice(), k) && !SumTwice()[k].Phi? && forall j :: Edge(SumTwice(), k, j) ==> j == k + 1
    ensures IsCall(SumTwice(), k) <==> k in {0, 3}
    ensures !SumTwice()[k].StoreNull? && !SumTwice()[k].Branch? && Of(4) !in Uses(SumTwice()[k])
    ensures k < 7 ==> Edge(SumTwice(), k, k + 1)
  {
  }

  lemma SumTwiceFormed()
    ensures Formed(SumTwice(), 0) && Linear(SumTwice()) && Repeats(SumTwice(), 0, 3)
    ensures FirstCalled(SumTwice(), 0, 3) && UsedElsewhere(SumTwice(), 0, 3)
  {
    forall k: nat | k < 8
      ensures ListedAt(SumTwice(), k) && !SumTwice()[k].Phi? && forall j :: Edge(SumTwice(), k, j) ==> j == k + 1
      ensures Of(4) !in Uses(SumTwice()[k])
    {
      SumTwiceAt(k);
    }
    LinearFormed(SumTwice());
  }

  lemma SumTwiceKept()
    ensures FlagKept(SumTwice(), 0, 3)
  {
    var code := SumTwice();
    SumTwiceFormed();
    forall path | Feasible(code, path) && Last(path) == 3 ensures HoldsFlag(code, path, 0) {
      LinearPath(code, path, |path| - 1);
      forall k: nat | k < 4 ensures path[k] == k {
        LinearPath(code, path, k);
      }
      assert LastWrite(code, path, 0, 0) && SameKey(code, path[0], 0);
    }
  }

  /** The slot of a replaced call must not be read again: here it is, and the result changes. */
  lemma RereadMatters()
    ensures var code := SumTwice();
            && Formed(code, 0) && Repeats(code, 0, 3)
            && FirstCalled(code, 0, 3) && UsedElsewhere(code, 0, 3) && FlagKept(code, 0, 3)
    ensures !SlotFree(SumTwice(), 0, 3) && !Equivalent(SumTwice(), Replaced(SumTwice(), 0, 3))
  {
    var code, path := SumTwice(), UpTo(6);
    SumTwiceFormed();
    SumTwiceKept();
    forall k: nat | k < 8
      ensures (k < 7 ==> Edge(code, k, k + 1)) && !code[k].Branch? && !code[k].Phi? && (Writes(code, k, 1) <==> k == 3)
    {
      SumTwiceAt(k);
    }
    assert IsPath(code, path) && EndsWithFlag(code, path, 1);
    StraightFeasible(code, path);
    assert ReadAgain(code, path, 3, 3);
    assert code[0].dst != code[3].dst;
    RereadShows(code, 0, 3, path, 3);
  }
}
