/** The elimination of repeated slot reference calls: be/src/codegen/subexpr-elimination.cc.

    Run keeps the first call with a row, lets the others' results be its result and lets the loads
    after them read its slot.  The uses are rewritten by LLVM's SSAUpdater.  It lets a use be the first
    result, except in the block of the first call itself: there it takes what comes in from the
    block's predecessors.
 */
module SubExprElimination {
  import opened CodegenIr
  import opened SubExprForm
  import opened SubExprKept
  import opened SubExprSound

  /** The first call with a key, and the load after it. */
  datatype CachedExprResult = CachedExprResult(result: nat, isNullLoad: nat)

  function Key(i: Instr): (Fn, Var)
    requires i.Call?
  {
    (i.fn, i.row)
  }

  /** The cache holds exactly the calls before i, each with the load of its slot. */
  ghost predicate Caches(cache: map<(Fn, Var), CachedExprResult>, code: Code, i: nat) {
    && (forall p :: p < i && IsCall(code, p) ==> Key(code[p]) in cache && cache[Key(code[p])].result == p)
    && (forall k :: k in cache ==>
          var e := cache[k];
          && e.result < i && IsCall(code, e.result) && Key(code[e.result]) == k
          && e.isNullLoad == e.result + 1 < |code| && code[e.isNullLoad].LoadNull? &&
          code[e.isNullLoad].slot == code[e.result].slot)
  }

  lemma NextInstr(code: Code, cache: map<(Fn, Var), CachedExprResult>, i: nat)
    requires i < |code| && !IsCall(code, i) && Eliminable(code, i) && Caches(cache, code, i)
    ensures Eliminable(code, i + 1) && Caches(cache, code, i + 1)
  {
  }

  lemma NewKey(code: Code, cache: map<(Fn, Var), CachedExprResult>, i: nat)
    requires Eliminable(code, i) && Caches(cache, code, i) && IsCall(code, i) && Key(code[i]) !in cache
    ensures i + 1 < |code|
    ensures Eliminable(code, i + 2) && Caches(cache[Key(code[i]) := CachedExprResult(i, i + 1)], code, i + 2)
  {
  }

  lemma CachedRepeats(code: Code, cache: map<(Fn, Var), CachedExprResult>, i: nat)
    requires Eliminable(code, i) && Caches(cache, code, i) && IsCall(code, i) && Key(code[i]) in cache
    ensures Repeats(code, cache[Key(code[i])].result, i) && i + 1 < |code| && code[i + 1].LoadNull?
  {
  }

  lemma KeepsCache(code: Code, cache: map<(Fn, Var), CachedExprResult>, i: nat)
    requires Caches(cache, code, i) && IsCall(code, i) && Key(code[i]) in cache
    requires Eliminable(code, i) && Repeats(code, cache[Key(code[i])].result, i)
    requires i + 1 < |code| && code[i + 1].LoadNull?
    ensures Caches(cache, Replaced(code, cache[Key(code[i])].result, i), i + 2)
  {
    var p := cache[Key(code[i])].result;
    RepeatsPair(code, p, i);
    CacheKept(code, cache, p, i, Locals(code, p));
  }

  lemma CacheKept(code: Code, cache: map<(Fn, Var), CachedExprResult>, p: nat, i: nat, ls: seq<bool>)
    requires Caches(cache, code, i) && Pair(code, p, i, ls)
    ensures Caches(cache, ReplacedWith(code, p, i, ls), i + 2)
  {
    var r := ReplacedWith(code, p, i, ls);
    forall k ensures IsCall(r, k) == (IsCall(code, k) && k != i) && (IsCall(code, k) && k != i ==> r[k] == code[k]) {
      ReplacedCalls(code, p, i, ls, k);
    }
  }

  lemma CachedOnce(code: Code, cache: map<(Fn, Var), CachedExprResult>)
    requires Caches(cache, code, |code|)
    ensures forall p, q :: SameKey(code, p, q) ==> p == q
  {
  }

  class IrFunction {
    const code: array<Instr>

    constructor (instrs: Code)
      ensures code[..] == instrs && fresh(code)
    {
      code := new Instr[|instrs|](k requires 0 <= k < |instrs| => instrs[k]);
    }

    /** Rewrites every use of the result of dst, and removes dst. */
    method ReplaceAllUses(src: nat, dst: nat)
      requires IsCall(code[..], src) && IsCall(code[..], dst) && RowsApart(code[..])
      modifies code
      ensures forall k :: 0 <= k < code.Length ==>
                code[k] == if k == dst then Erased
                           else RewriteUses(old(code[k]), SameBlock(old(code[..]), k, src), old(code[src].dst),
                                            old(code[dst].dst))
    {
      var blocks, to, from := code[..], code[src].dst, code[dst].dst;
      for k := 0 to code.Length
        invariant forall j :: 0 <= j < k ==> code[j] == RewriteUses(old(code[j]), SameBlock(blocks, j, src), to, from)
        invariant forall j :: k <= j < code.Length ==> code[j] == old(code[j])
      {
        code[k] := RewriteUses(code[k], SameBlock(blocks, k, src), to, from);
      }
      code[dst] := Erased;
    }

    /** Replaces the call at q by the cached one. */
    method ReplaceCall(e: CachedExprResult, q: nat)
      requires IsCall(code[..], e.result) && IsCall(code[..], q) && RowsApart(code[..])
      requires q + 1 < code.Length && code[q + 1].LoadNull?
      requires e.isNullLoad < q && code[e.isNullLoad].LoadNull? && code[e.isNullLoad].slot == code[e.result].slot
      modifies code
      ensures code[..] == Replaced(old(code[..]), e.result, q)
    {
      var nullDst := code[q + 1].dst;
      ReplaceAllUses(e.result, q);
      code[q + 1] := LoadNull(nullDst, code[e.isNullLoad].slot);
    }

    /** Replaces a call whose key is cached. */
    method ReplaceCached(cache: map<(Fn, Var), CachedExprResult>, i: nat)
      requires Eliminable(code[..], i) && Caches(cache, code[..], i) && IsCall(code[..], i) && Key(code[i]) in cache
      modifies code
      ensures i + 2 <= code.Length && Eliminable(code[..], i + 2) && Caches(cache, code[..], i + 2)
      ensures Equivalent(old(code[..]), code[..])
    {
      var e := cache[Key(code[i])];
      CachedRepeats(code[..], cache, i);
      ReplacementSound(code[..], e.result, i);
      KeepsEliminable(code[..], e.result, i);
      KeepsCache(code[..], cache, i);
      ReplaceCall(e, i);
    }

    /** The walk over the instructions. */
    method Run()
      requires Eliminable(code[..], 0)
      modifies code
      ensures Equivalent(old(code[..]), code[..])
      ensures forall p, q :: SameKey(code[..], p, q) ==> p == q
    {
      var cache: map<(Fn, Var), CachedExprResult> := map[];
      var i := 0;
      while i < code.Length
        invariant i <= code.Length && Eliminable(code[..], i) && Caches(cache, code[..], i)
        invariant Equivalent(old(code[..]), code[..])
        decreases code.Length - i
      {
        if !code[i].Call? {
          NextInstr(code[..], cache, i);
          i := i + 1;
        } else if Key(code[i]) !in cache {
          NewKey(code[..], cache, i);
          cache := cache[Key(code[i]) := CachedExprResult(i, i + 1)];
          i := i + 2;
        } else {
          ReplaceCached(cache, i);
          i := i + 2;
        }
      }
      CachedOnce(code[..], cache);
    }
  }
}
