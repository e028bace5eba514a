/** Version specifiers: Requirement.__contains__ and state_machine in shell/pkg_resources.py.

    A version is given by its place in the order of the version keys.
 */
module PkgSpec {

  datatype Op = Lt | Le | Gt | Ge | Eq | Ne

  datatype Spec = Spec(op: Op, version: int)

  datatype Action = F | T | Plus | Minus | Stay

  /** The row of the state machine: the actions if the version is equal, greater and less. */
  function Row(op: Op): (Action, Action, Action) {
    match op
    case Lt => (Minus, Minus, T)
    case Le => (T, Minus, T)
    case Gt => (F, Plus, F)
    case Ge => (T, Plus, F)
    case Eq => (T, Stay, Stay)
    case Ne => (F, Plus, Plus)
  }

  function ActionOf(s: Spec, v: int): Action {
    if v == s.version then Row(s.op).0 else if v > s.version then Row(s.op).1 else Row(s.op).2
  }

  datatype Last = Unknown | Known(value: bool)

  /** The loop from specifier i on. */
  function From(index: seq<Spec>, v: int, i: nat, last: Last): bool
    requires i <= |index|
    decreases |index| - i
  {
    if i == |index| then last.Unknown? || last.value
    else
      match ActionOf(index[i], v)
      case F => false
      case T => true
      case Plus => From(index, v, i + 1, Known(true))
      case Minus => From(index, v, i + 1, Known(false))
      case Stay => From(index, v, i + 1, if last.Unknown? then Known(false) else last)
  }

  /** Whether the requirement contains the version; the specifiers are sorted. */
  method Contains(index: seq<Spec>, v: int) returns (r: bool)
    ensures r == From(index, v, 0, Unknown)
  {
    var last := Unknown;
    for i := 0 to |index|
      invariant From(index, v, i, last) == From(index, v, 0, Unknown)
    {
      var action := ActionOf(index[i], v);
      if action == F {
        return false;
      } else if action == T {
        return true;
      } else if action == Plus {
        last := Known(true);
      } else if action == Minus || last == Unknown {
        last := Known(false);
      }
    }
    if last == Unknown {
      last := Known(true);
    }
    return last.value;
  }

  // ----- the reference: all comparisons hold -----

  predicate Holds(s: Spec, v: int) {
    match s.op
    case Lt => v < s.version
    case Le => v <= s.version
    case Gt => v > s.version
    case Ge => v >= s.version
    case Eq => v == s.version
    case Ne => v != s.version
  }

  predicate AllHold(index: seq<Spec>, v: int) {
    forall i :: 0 <= i < |index| ==> Holds(index[i], v)
  }

  predicate IsLower(s: Spec) { s.op == Gt || s.op == Ge }
  predicate IsUpper(s: Spec) { s.op == Lt || s.op == Le }

  predicate Increasing(index: seq<Spec>) {
    forall i, j :: 0 <= i < j < |index| ==> index[i].version < index[j].version
  }

  /** At most one lower bound, at most one upper bound and exclusions, each with a version of its own. */
  predicate Window(index: seq<Spec>) {
    && Increasing(index)
    && (forall i :: 0 <= i < |index| ==> index[i].op != Eq)
    && (forall i, j :: 0 <= i < j < |index| ==> !(IsLower(index[i]) && IsLower(index[j])))
    && (forall i, j :: 0 <= i < j < |index| ==> !(IsUpper(index[i]) && IsUpper(index[j])))
  }

  /** An upper bound has nothing behind it. */
  predicate UpperLast(index: seq<Spec>) {
    forall i :: 0 <= i < |index| && IsUpper(index[i]) ==> i == |index| - 1
  }

  predicate HoldFrom(index: seq<Spec>, v: int, i: nat) {
    forall k :: i <= k < |index| ==> Holds(index[k], v)
  }

  /** With the upper bound last, what the loop finds from i on is the conjunction, if no specifier before
      has decided it and the last action was not a minus. */
  lemma {:induction false} FromIsConjunction(index: seq<Spec>, v: int, i: nat, last: Last)
    requires Window(index) && UpperLast(index) && i <= |index| && (last == Unknown || last == Known(true))
    ensures From(index, v, i, last) == HoldFrom(index, v, i)
    decreases |index| - i
  {
    if i >= |index| {
    } else {
      var s := index[i];
      if ActionOf(s, v) == Plus {
        FromIsConjunction(index, v, i + 1, Known(true));
      } else if ActionOf(s, v) == T {
        if s.op == Ge {
          assert forall k :: i < k < |index| ==> v < index[k].version && !IsLower(index[k]) && index[k].op != Eq;
        }
      } else if ActionOf(s, v) == Minus {
        assert i == |index| - 1 && From(index, v, i + 1, Known(false)) == false;
      }
    }
  }

  /** If something is behind the upper bound, some version is taken although not all comparisons hold. */
  lemma UpperNotLast(index: seq<Spec>, u: nat) returns (v: int)
    requires Window(index) && u < |index| - 1 && IsUpper(index[u])
    ensures From(index, v, 0, Unknown) && !AllHold(index, v)
  {
    var n := |index| - 1;
    if exists k :: u < k <= n && IsLower(index[k]) {
      var k :| u < k <= n && IsLower(index[k]);
      v := index[0].version - 1;
      assert !Holds(index[k], v);
      Below(index, v, 0, u, Unknown);
    } else {
      v := index[n].version + 1;
      assert !Holds(index[u], v);
      Above(index, v, 0, Unknown);
    }
  }

  /** Below everything, with a lower bound only behind the upper bound: the upper bound is reached and takes v. */
  lemma {:induction false} Below(index: seq<Spec>, v: int, i: nat, u: nat, last: Last)
    requires Window(index) && i <= u < |index| && IsUpper(index[u]) && v < index[0].version
    requires forall k :: 0 <= k < u ==> !IsLower(index[k])
    ensures From(index, v, i, last)
    decreases u - i
  {
    assert v < index[i].version;
    if i < u {
      Below(index, v, i + 1, u, if ActionOf(index[i], v) == Plus then Known(true) else last);
    }
  }

  /** Above everything, with an exclusion last: that one takes v. */
  lemma {:induction false} Above(index: seq<Spec>, v: int, i: nat, last: Last)
    requires Window(index) && i < |index| && v > index[|index| - 1].version && !IsUpper(index[|index| - 1])
    ensures From(index, v, i, last)
    decreases |index| - i
  {
    assert v > index[i].version;
    if i < |index| - 1 {
      Above(index, v, i + 1, Known(ActionOf(index[i], v) == Plus));
    }
  }

  ghost predicate ContainsIsConjunction(index: seq<Spec>) {
    forall v :: From(index, v, 0, Unknown) == AllHold(index, v)
  }

  /** The loop computes the conjunction for every version if and only if nothing is behind an upper bound. */
  lemma ExactlyWhen(index: seq<Spec>)
    requires Window(index)
    ensures ContainsIsConjunction(index) <==> UpperLast(index)
  {
    if UpperLast(index) {
      forall v ensures From(index, v, 0, Unknown) == AllHold(index, v) {
        FromIsConjunction(index, v, 0, Unknown);
      }
    } else {
      var u :| 0 <= u < |index| && IsUpper(index[u]) && u != |index| - 1;
      var v := UpperNotLast(index, u);
      assert From(index, v, 0, Unknown) != AllHold(index, v);
    }
  }
}
