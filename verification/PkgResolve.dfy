/** Dependency resolution: WorkingSet.resolve in shell/pkg_resources.py. */
module PkgResolve {
  import opened Wrappers

  type Key = string

  /** Equal requirements have the same project key, version specifiers and extras. */
  datatype Requirement = Requirement(key: Key, specs: seq<(string, string)>, extras: set<string>)

  datatype Distribution = Distribution(key: Key, version: string)

  /** What resolve looks at: the distributions that are active already, the best match of the environment
      or the installer, whether a distribution meets a requirement, and what a distribution needs
      with some extras; there may be no such extra. */
  datatype World = World(
    byKey: map<Key, Distribution>,
    bestMatch: Requirement -> Option<Distribution>,
    contains: (Distribution, Requirement) -> bool,
    needs: (Distribution, set<string>) -> Option<seq<Requirement>>)

  ghost predicate Legal(w: World) {
    && (forall k :: k in w.byKey ==> w.byKey[k].key == k)
    && (forall d, r :: w.contains(d, r) ==> d.key == r.key)
  }

  datatype Result =
    | Activate(dists: seq<Distribution>)
    | DistributionNotFound(missing: Requirement)
    | VersionConflict(dist: Distribution, unmet: Requirement)
    | UnknownExtra(holder: Distribution, of: Requirement)

  // ----- the graph -----

  type Choice = map<Key, Distribution>

  /** With these choices, meeting p takes r. */
  predicate Leads(w: World, c: Choice, p: Requirement, r: Requirement) {
    p.key in c && w.needs(c[p.key], p.extras).Some? && r in w.needs(c[p.key], p.extras).value
  }

  ghost predicate ReachableBy(w: World, c: Choice, roots: seq<Requirement>, r: Requirement, n: nat)
    decreases n
  {
    r in roots || (n > 0 && exists p :: ReachableBy(w, c, roots, p, n - 1) && Leads(w, c, p, r))
  }

  ghost predicate Reachable(w: World, c: Choice, roots: seq<Requirement>, r: Requirement) {
    exists n: nat :: ReachableBy(w, c, roots, r, n)
  }

  /** The graph is finite: no distribution that meets a requirement leads out of the set. */
  ghost predicate Finite(w: World, roots: seq<Requirement>, all: set<Requirement>) {
    && (forall r :: r in roots ==> r in all)
    && (forall r, d :: r in all && w.contains(d, r) && w.needs(d, r.extras).Some? ==>
          forall x :: x in w.needs(d, r.extras).value ==> x in all)
  }

  lemma {:induction false} MoreChoices(w: World, c: Choice, c': Choice, roots: seq<Requirement>, r: Requirement, n: nat)
    requires ReachableBy(w, c, roots, r, n) && forall k :: k in c ==> k in c' && c'[k] == c[k]
    ensures ReachableBy(w, c', roots, r, n)
    decreases n
  {
    if r in roots {
    } else {
      var p :| ReachableBy(w, c, roots, p, n - 1) && Leads(w, c, p, r);
      MoreChoices(w, c, c', roots, p, n - 1);
      assert Leads(w, c', p, r);
    }
  }

  lemma NextReachable(w: World, c: Choice, roots: seq<Requirement>, p: Requirement, r: Requirement)
    requires Reachable(w, c, roots, p) && Leads(w, c, p, r)
    ensures Reachable(w, c, roots, r)
  {
    var n: nat :| ReachableBy(w, c, roots, p, n);
    assert ReachableBy(w, c, roots, r, n + 1);
  }

  /** The requirements of `done` are met, and what they lead to is done or open. */
  ghost predicate Met(w: World, c: Choice, done: set<Requirement>, open: seq<Requirement>) {
    forall r :: r in done ==>
      && r.key in c && w.contains(c[r.key], r) && w.needs(c[r.key], r.extras).Some?
      && forall x :: x in w.needs(c[r.key], r.extras).value ==> x in done || x in open
  }

  lemma {:induction false} Closed(w: World, c: Choice, roots: seq<Requirement>, done: set<Requirement>, r: Requirement,
                                  n: nat)
    requires Met(w, c, done, []) && (forall x :: x in roots ==> x in done) && ReachableBy(w, c, roots, r, n)
    ensures r in done
    decreases n
  {
    if r in roots {
    } else {
      var p :| ReachableBy(w, c, roots, p, n - 1) && Leads(w, c, p, r);
      Closed(w, c, roots, done, p, n - 1);
    }
  }

  // ----- the result -----

  /** The choice for r's key is the active distribution, or the best match of r. */
  ghost predicate Origin(w: World, c: Choice, r: Requirement) {
    r.key in c && if r.key in w.byKey then c[r.key] == w.byKey[r.key] else w.bestMatch(r) == Some(c[r.key])
  }

  /** Every choice was made for a reachable requirement. */
  ghost predicate Selected(w: World, c: Choice, roots: seq<Requirement>) {
    forall k :: k in c ==> exists r: Requirement :: r.key == k && Reachable(w, c, roots, r) && Origin(w, c, r)
  }

  /** The distributions are the chosen ones, one per project key, chosen for reachable requirements,
      and every reachable requirement is met by one of them. */
  ghost predicate Resolves(w: World, c: Choice, roots: seq<Requirement>, dists: seq<Distribution>) {
    && (forall d :: d in dists <==> d.key in c && c[d.key] == d)
    && (forall k :: k in c ==> c[k].key == k)
    && Selected(w, c, roots)
    && (forall r :: Reachable(w, c, roots, r) ==>
          r.key in c && w.contains(c[r.key], r) && w.needs(c[r.key], r.extras).Some?)
  }

  /** One per key, in other words. */
  lemma OnePerKey(w: World, c: Choice, roots: seq<Requirement>, dists: seq<Distribution>, d: Distribution,
                  e: Distribution)
    requires Resolves(w, c, roots, dists) && d in dists && e in dists && d.key == e.key
    ensures d == e
  {
  }

  /** Why resolution failed, with the choices so far. */
  ghost predicate Fails(w: World, c: Choice, roots: seq<Requirement>, res: Result) {
    Selected(w, c, roots) &&
    match res
    case Activate(_) => false
    case DistributionNotFound(r) =>
      Reachable(w, c, roots, r) && r.key !in c && r.key !in w.byKey && w.bestMatch(r).None?
    case VersionConflict(d, r) => Reachable(w, c, roots, r) && r.key in c && c[r.key] == d && !w.contains(d, r)
    case UnknownExtra(d, r) => Reachable(w, c, roots, r) && r.key in c && c[r.key] == d && w.needs(d, r.extras).None?
  }

  function Reversed(s: seq<Requirement>): (r: seq<Requirement>)
    ensures |r| == |s| && forall i :: 0 <= i < |s| ==> r[i] == s[|s| - 1 - i]
    ensures forall x :: x in r <==> x in s
  {
    if s == [] then [] else Reversed(s[1..]) + [s[0]]
  }

  // ----- the algorithm -----

  /** What holds between two rounds. */
  ghost predicate Working(w: World, c: Choice, roots: seq<Requirement>, open: seq<Requirement>, done: set<Requirement>,
                          best: map<Key, Distribution>, dists: seq<Distribution>)
  {
    && Met(w, c, done, open) && (forall r :: r in roots ==> r in done || r in open)
    && (forall r :: r in done || r in open ==> Reachable(w, c, roots, r))
    && Chosen(w, c, best, dists)
    && (forall k :: k in c ==> exists r: Requirement :: r.key == k && r in done && Origin(w, c, r))
  }

  /** The choices are the active distributions and the best matches used so far. */
  ghost predicate Chosen(w: World, c: Choice, best: map<Key, Distribution>, dists: seq<Distribution>) {
    && (forall k :: k in best ==> k in c && best[k] == c[k] && k !in w.byKey)
    && (forall k :: k in c ==> c[k].key == k && (k in best || (k in w.byKey && c[k] == w.byKey[k])))
    && (forall d :: d in dists <==> d.key in c && c[d.key] == d)
  }

  lemma Grows(w: World, c: Choice, roots: seq<Requirement>, k: Key, d: Distribution, r: Requirement)
    requires Reachable(w, c, roots, r) && (k in c ==> c[k] == d)
    ensures Reachable(w, c[k := d], roots, r)
  {
    var n: nat :| ReachableBy(w, c, roots, r, n);
    MoreChoices(w, c, c[k := d], roots, r, n);
  }

  /** A requirement that is done, after a distribution has been chosen for its key. */
  lemma DoneNext(w: World, c: Choice, done: set<Requirement>, open: seq<Requirement>, r: Requirement, d: Distribution)
    requires Met(w, c, done, [r] + open) && (r.key in c ==> c[r.key] == d)
    requires w.contains(d, r) && w.needs(d, r.extras).Some?
    ensures Met(w, c[r.key := d], done + {r}, open + Reversed(w.needs(d, r.extras).value))
  {
  }

  lemma ReachableNext(w: World, c: Choice, roots: seq<Requirement>, done: set<Requirement>, open: seq<Requirement>,
                      r: Requirement, d: Distribution, x: Requirement)
    requires (forall y :: y in done || y == r || y in open ==> Reachable(w, c, roots, y)) &&
             (r.key in c ==> c[r.key] == d)
    requires w.needs(d, r.extras).Some? && (x in done + {r} || x in open + Reversed(w.needs(d, r.extras).value))
    ensures Reachable(w, c[r.key := d], roots, x)
  {
    if x in w.needs(d, r.extras).value {
      Grows(w, c, roots, r.key, d, r);
      NextReachable(w, c[r.key := d], roots, r, x);
    } else {
      Grows(w, c, roots, r.key, d, x);
    }
  }

  lemma WorkingNext(w: World, c: Choice, roots: seq<Requirement>, open: seq<Requirement>, done: set<Requirement>,
                    best: map<Key, Distribution>, dists: seq<Distribution>, r: Requirement, d: Distribution)
    requires Met(w, c, done, [r] + open) && (forall x :: x in roots ==> x in done || x in [r] + open)
    requires forall x :: x in done || x == r || x in open ==> Reachable(w, c, roots, x)
    requires forall k :: k in c ==> exists x: Requirement :: x.key == k && x in done && Origin(w, c, x)
    requires r.key !in c ==> Origin(w, c[r.key := d], r)
    requires (r.key in c ==> c[r.key] == d) && w.contains(d, r) && w.needs(d, r.extras).Some?
    requires Chosen(w, c[r.key := d], best, dists)
    ensures Working(w, c[r.key := d], roots, open + Reversed(w.needs(d, r.extras).value), done + {r}, best, dists)
  {
    DoneNext(w, c, done, open, r, d);
    forall x | x in done + {r} || x in open + Reversed(w.needs(d, r.extras).value)
      ensures Reachable(w, c[r.key := d], roots, x)
    {
      ReachableNext(w, c, roots, done, open, r, d, x);
    }
    var c', done' := c[r.key := d], done + {r};
    forall k | k in c' ensures exists x: Requirement :: x.key == k && x in done' && Origin(w, c', x) {
      if k in c {
        var x: Requirement :| x.key == k && x in done && Origin(w, c, x);
        assert x in done' && Origin(w, c', x);
      } else {
        assert r in done';
      }
    }
  }

  lemma Finished(w: World, c: Choice, roots: seq<Requirement>, done: set<Requirement>, best: map<Key, Distribution>,
                 dists: seq<Distribution>)
    requires Working(w, c, roots, [], done, best, dists)
    ensures Resolves(w, c, roots, dists)
  {
    WorkingSelected(w, c, roots, [], done, best, dists);
    forall r | Reachable(w, c, roots, r) ensures r in done {
      var n: nat :| ReachableBy(w, c, roots, r, n);
      Closed(w, c, roots, done, r, n);
    }
  }

  /** The distribution for a requirement: the one used for its key before, the active one, or the best match;
      a new one is added to the list, and an active one is added whenever it is used. */
  method Choose(w: World, r: Requirement, best: map<Key, Distribution>, dists: seq<Distribution>, ghost c: Choice)
    returns (d: Option<Distribution>, best': map<Key, Distribution>, dists': seq<Distribution>)
    requires Legal(w) && Chosen(w, c, best, dists)
    ensures d.None? ==> r.key !in c && r.key !in w.byKey && w.bestMatch(r).None?
    ensures d.Some? && r.key !in c ==> Origin(w, c[r.key := d.value], r)
    ensures d.Some? ==>
              && (r.key in c ==> c[r.key] == d.value)
              && (d.value.key == r.key ==> Chosen(w, c[r.key := d.value], best', dists'))
  {
    best', dists' := best, dists;
    if r.key in best {
      return Some(best[r.key]), best', dists';
    }
    if r.key in w.byKey {
      d := Some(w.byKey[r.key]);
    } else {
      d := w.bestMatch(r);
      if d.None? {
        return;
      }
      best' := best'[r.key := d.value];
    }
    dists' := dists' + [d.value];
  }

  lemma StillSelected(w: World, c: Choice, roots: seq<Requirement>, r: Requirement, d: Distribution)
    requires Selected(w, c, roots) && Reachable(w, c, roots, r)
    requires if r.key in c then c[r.key] == d else Origin(w, c[r.key := d], r)
    ensures Selected(w, c[r.key := d], roots)
  {
    var c' := c[r.key := d];
    forall k | k in c' ensures exists x: Requirement :: x.key == k && Reachable(w, c', roots, x) && Origin(w, c', x) {
      if k in c {
        var x: Requirement :| x.key == k && Reachable(w, c, roots, x) && Origin(w, c, x);
        Grows(w, c, roots, r.key, d, x);
        assert Origin(w, c', x);
      } else {
        Grows(w, c, roots, r.key, d, r);
      }
    }
  }

  lemma WorkingSelected(w: World, c: Choice, roots: seq<Requirement>, open: seq<Requirement>, done: set<Requirement>,
                        best: map<Key, Distribution>, dists: seq<Distribution>)
    requires Working(w, c, roots, open, done, best, dists)
    ensures Selected(w, c, roots)
  {
    forall k | k in c ensures exists r: Requirement :: r.key == k && Reachable(w, c, roots, r) && Origin(w, c, r) {
      var r: Requirement :| r.key == k && r in done && Origin(w, c, r);
      assert Reachable(w, c, roots, r);
    }
  }

  /** One requirement that is not done yet. */
  method Meet(w: World, ghost roots: seq<Requirement>, r: Requirement, open: seq<Requirement>,
              ghost done: set<Requirement>,
              best: map<Key, Distribution>, dists: seq<Distribution>, ghost c: Choice)
    returns (failure: Option<Result>, more: seq<Requirement>, best': map<Key, Distribution>, dists': seq<Distribution>,
             ghost c': Choice, ghost d: Distribution)
    requires Legal(w) && Working(w, c, roots, [r] + open, done, best, dists)
    ensures failure.Some? ==> Fails(w, c', roots, failure.value)
    ensures failure.None? ==> w.contains(d, r) && w.needs(d, r.extras) == Some(more)
    ensures failure.None? ==> Working(w, c', roots, open + Reversed(more), done + {r}, best', dists')
  {
    failure, more, c', d := None, [], c, Distribution([], []);
    assert r in [r] + open && Reachable(w, c, roots, r);
    WorkingSelected(w, c, roots, [r] + open, done, best, dists);
    var chosen;
    chosen, best', dists' := Choose(w, r, best, dists, c);
    if chosen.None? {
      failure := Some(DistributionNotFound(r));
      return;
    }
    d := chosen.value;
    c' := c[r.key := d];
    Grows(w, c, roots, r.key, d, r);
    StillSelected(w, c, roots, r, d);
    if !w.contains(chosen.value, r) {
      failure := Some(VersionConflict(chosen.value, r));
      return;
    }
    var needed := w.needs(chosen.value, r.extras);
    if needed.None? {
      failure := Some(UnknownExtra(chosen.value, r));
      return;
    }
    more := needed.value;
    WorkingNext(w, c, roots, open, done, best', dists', r, d);
  }

  lemma Redundant(w: World, c: Choice, roots: seq<Requirement>, open: seq<Requirement>, done: set<Requirement>,
                  best: map<Key, Distribution>, dists: seq<Distribution>)
    requires open != [] && open[0] in done && Working(w, c, roots, open, done, best, dists)
    ensures Working(w, c, roots, open[1..], done, best, dists)
  {
    assert open == [open[0]] + open[1..];
  }

  lemma Start(w: World, roots: seq<Requirement>)
    ensures Working(w, map[], roots, Reversed(roots), {}, map[], [])
  {
    forall r | r in roots ensures Reachable(w, map[], roots, r) {
      assert ReachableBy(w, map[], roots, r, 0);
    }
  }

  ghost predicate Inside(open: seq<Requirement>, all: set<Requirement>) {
    forall r :: r in open ==> r in all
  }

  lemma MoreInside(w: World, roots: seq<Requirement>, all: set<Requirement>, open: seq<Requirement>, r: Requirement,
                   d: Distribution,
                   more: seq<Requirement>)
    requires Finite(w, roots, all) && r in all && w.contains(d, r) && w.needs(d, r.extras) == Some(more) &&
             Inside(open, all)
    ensures Inside(open + Reversed(more), all)
  {
  }

  lemma Fewer(all: set<Requirement>, done: set<Requirement>, r: Requirement)
    requires r in all && r !in done
    ensures |all - (done + {r})| < |all - done|
  {
    assert all - (done + {r}) == (all - done) - {r};
  }

  /** One round of the loop. */
  method Round(w: World, ghost roots: seq<Requirement>, open: seq<Requirement>, done: set<Requirement>,
               best: map<Key, Distribution>, dists: seq<Distribution>, ghost c: Choice, ghost all: set<Requirement>)
    returns (failure: Option<Result>, open': seq<Requirement>, done': set<Requirement>, best': map<Key, Distribution>,
             dists': seq<Distribution>, ghost c': Choice)
    requires Legal(w) && Finite(w, roots, all) && open != []
    requires Working(w, c, roots, open, done, best, dists) && Inside(open, all)
    ensures failure.Some? ==> Fails(w, c', roots, failure.value)
    ensures failure.None? ==> Working(w, c', roots, open', done', best', dists') && Inside(open', all)
    ensures failure.None? ==> |all - done'| < |all - done| || (done' == done && |open'| < |open|)
  {
    failure, open', done', best', dists', c' := None, open[1..], done, best, dists, c;
    var r := open[0];
    if r in done {
      Redundant(w, c, roots, open, done, best, dists);
    } else {
      assert open == [r] + open[1..];
      var more;
      ghost var d;
      failure, more, best', dists', c', d := Meet(w, roots, r, open[1..], done, best, dists, c);
      if failure.None? {
        MoreInside(w, roots, all, open[1..], r, d, more);
        Fewer(all, done, r);
        open', done' := open[1..] + Reversed(more), done + {r};
      }
    }
  }

  /** Lists the distributions needed to meet the requirements, or says why there are none: there is
      a choice of distributions with which the result is right. */
  method Resolve(w: World, roots: seq<Requirement>, ghost all: set<Requirement>) returns (res: Result)
    requires Legal(w) && Finite(w, roots, all)
    ensures res.Activate? ==> exists c :: Resolves(w, c, roots, res.dists)
    ensures !res.Activate? ==> exists c :: Fails(w, c, roots, res)
  {
    var open, done, best, dists := Reversed(roots), {}, map[], [];
    ghost var c := map[];
    Start(w, roots);
    while open != []
      invariant Working(w, c, roots, open, done, best, dists) && Inside(open, all)
      decreases |all - done|, |open|
    {
      var failure;
      failure, open, done, best, dists, c := Round(w, roots, open, done, best, dists, c, all);
      if failure.Some? {
        return failure.value;
      }
    }
    Finished(w, c, roots, done, best, dists);
    res := Activate(dists);
  }
}
