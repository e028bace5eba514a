/** Whole aggregate tuples: which slot an evaluator has, and what the generated UpdateAggTuple leaves in it.
    be/src/exec/aggregation-node.cc: Prepare, ConstructAggTuple, CodegenUpdateAggTuple. */
module AggTuple {
  import opened Wrappers
  import opened Aggregation
  import opened Batches
  import opened AggSlots

  // ----- the i-th materialized slot after the grouping slots -----

  function NextSlot(slots: seq<SlotDesc>, j: nat): (r: nat)
    requires j <= |slots|
    ensures j <= r <= |slots| && (r < |slots| ==> slots[r].materialized)
    decreases |slots| - j
  {
    if j == |slots| || slots[j].materialized then j else NextSlot(slots, j + 1)
  }

  lemma {:induction false} SkipsNone(slots: seq<SlotDesc>, j: nat, k: nat)
    requires j <= k < |slots| && k < NextSlot(slots, j)
    ensures !slots[k].materialized
    decreases |slots| - j
  {
    if j >= k {
    } else {
      SkipsNone(slots, j + 1, k);
    }
  }

  function SlotOf(slots: seq<SlotDesc>, from: nat, i: nat): (r: nat)
    requires from <= |slots|
    ensures from <= r <= |slots| && (r < |slots| ==> slots[r].materialized)
  {
    if i == 0 then NextSlot(slots, from)
    else
      var before := SlotOf(slots, from, i - 1);
      if before == |slots| then before else NextSlot(slots, before + 1)
  }

  /** There are slots for n evaluators. */
  predicate Enough(slots: seq<SlotDesc>, from: nat, n: nat) {
    from <= |slots| && (n == 0 || SlotOf(slots, from, n - 1) < |slots|)
  }

  lemma {:induction false} SlotsIncrease(slots: seq<SlotDesc>, from: nat, i: nat, k: nat)
    requires i < k && from <= |slots| && SlotOf(slots, from, k) < |slots|
    ensures SlotOf(slots, from, i) < SlotOf(slots, from, k)
  {
    if i >= k - 1 {
    } else {
      SlotsIncrease(slots, from, i, k - 1);
    }
  }

  lemma EnoughFor(slots: seq<SlotDesc>, from: nat, n: nat, i: nat)
    requires Enough(slots, from, n) && i < n
    ensures SlotOf(slots, from, i) < |slots|
  {
    if i < n - 1 {
      SlotsIncrease(slots, from, i, n - 1);
    }
  }

  /** Every materialized slot up to the last one of an evaluator is some evaluator's. */
  lemma {:induction false} NoneSkipped(slots: seq<SlotDesc>, from: nat, n: nat, j: nat)
    requires from <= j < |slots| && slots[j].materialized && j < SlotOf(slots, from, n)
    ensures exists i :: 0 <= i < n && SlotOf(slots, from, i) == j
  {
    if n > 0 && j < SlotOf(slots, from, n - 1) {
      NoneSkipped(slots, from, n - 1, j);
    } else if n > 0 && j == SlotOf(slots, from, n - 1) {
    } else {
      SkipsNone(slots, if n == 0 then from else SlotOf(slots, from, n - 1) + 1, j);
    }
  }

  // ----- the loops -----

  /** Skips the slots that are not materialized: there are no evaluators for them. */
  method Skip(slots: seq<SlotDesc>, j: nat) returns (j': nat)
    requires j <= |slots| && NextSlot(slots, j) < |slots|
    ensures j' == NextSlot(slots, j)
  {
    j' := j;
    while !slots[j'].materialized
      invariant j' < |slots| && NextSlot(slots, j') == NextSlot(slots, j)
      decreases |slots| - j'
    {
      j' := j' + 1;
    }
  }

  /** Prepare: the output slot of each evaluator. */
  method Prepare(slots: seq<SlotDesc>, numGrouping: nat, n: nat) returns (outputs: seq<nat>)
    requires Enough(slots, numGrouping, n)
    ensures |outputs| == n && forall i {:trigger outputs[i]} :: 0 <= i < n ==>
              outputs[i] == SlotOf(slots, numGrouping, i)
  {
    outputs := [];
    var j: nat := numGrouping;
    for i := 0 to n
      invariant |outputs| == i && forall k {:trigger outputs[k]} :: 0 <= k < i ==>
                  outputs[k] == SlotOf(slots, numGrouping, k)
      invariant j <= |slots| && NextSlot(slots, j) == SlotOf(slots, numGrouping, i)
    {
      EnoughFor(slots, numGrouping, n, i);
      j := Skip(slots, j);
      outputs := outputs + [j];
      j := j + 1;
    }
  }

  /** The slot of evaluator i has its initial value. */
  ghost predicate Inited(slots: seq<SlotDesc>, from: nat, e: Evaluator, i: nat, tuple: seq<Slot>) {
    from <= |slots| == |tuple| &&
    var j := SlotOf(slots, from, i);
    j < |slots| && tuple[j] == InitSlot(e, slots[j])
  }

  lemma OthersInited(slots: seq<SlotDesc>, from: nat, e: Evaluator, i: nat, k: nat, tuple: seq<Slot>, s: Slot)
    requires i < k && Inited(slots, from, e, i, tuple) && SlotOf(slots, from, k) < |slots|
    ensures Inited(slots, from, e, i, tuple[SlotOf(slots, from, k) := s])
  {
    SlotsIncrease(slots, from, i, k);
  }

  /** The evaluators' initial values. */
  method InitEvaluators(slots: seq<SlotDesc>, numGrouping: nat, evaluators: seq<Evaluator>, start: seq<Slot>)
    returns (tuple: seq<Slot>)
    requires Enough(slots, numGrouping, |evaluators|) && |start| == |slots|
    ensures |tuple| == |slots| && tuple[..numGrouping] == start[..numGrouping]
    ensures forall i :: 0 <= i < |evaluators| ==> Inited(slots, numGrouping, evaluators[i], i, tuple)
  {
    tuple := start;
    var j: nat := numGrouping;
    for i := 0 to |evaluators|
      invariant |tuple| == |slots| && tuple[..numGrouping] == start[..numGrouping]
      invariant numGrouping <= j <= |slots| && NextSlot(slots, j) == SlotOf(slots, numGrouping, i)
      invariant forall k :: 0 <= k < i ==> Inited(slots, numGrouping, evaluators[k], k, tuple)
    {
      EnoughFor(slots, numGrouping, |evaluators|, i);
      j := Skip(slots, j);
      var init := InitSlot(evaluators[i], slots[j]);
      forall k | 0 <= k < i ensures Inited(slots, numGrouping, evaluators[k], k, tuple[j := init]) {
        OthersInited(slots, numGrouping, evaluators[k], k, i, tuple, init);
      }
      tuple := tuple[j := init];
      j := j + 1;
    }
  }

  /** ConstructAggTuple: the grouping values, then the evaluators' initial values. */
  method ConstructAggTuple(slots: seq<SlotDesc>, group: seq<Field>, evaluators: seq<Evaluator>)
    returns (tuple: seq<Slot>)
    requires Enough(slots, |group|, |evaluators|)
    ensures |tuple| == |slots|
    ensures forall i :: 0 <= i < |group| ==> tuple[i] == SetOutputSlot(slots[i], Slot(false, 0), group[i])
    ensures forall i :: 0 <= i < |evaluators| ==> Inited(slots, |group|, evaluators[i], i, tuple)
  {
    var t := seq(|slots|, _ => Slot(false, 0));
    for i := 0 to |group|
      invariant |t| == |slots|
      invariant forall k :: 0 <= k < i ==> t[k] == SetOutputSlot(slots[k], Slot(false, 0), group[k])
      invariant forall k :: i <= k < |slots| ==> t[k] == Slot(false, 0)
    {
      t := t[i := SetOutputSlot(slots[i], t[i], group[i])];
    }
    tuple := InitEvaluators(slots, |group|, evaluators, t);
    assert forall i :: 0 <= i < |group| ==> tuple[i] == tuple[..|group|][i] && t[i] == t[..|group|][i];
  }

  predicate Unsupported(slots: seq<SlotDesc>, j: nat) {
    j < |slots| && slots[j].slotType.Other?
  }

  ghost predicate PieceOf(slots: seq<SlotDesc>, from: nat, e: Evaluator, i: nat, u: Update) {
    from <= |slots| &&
    var j := SlotOf(slots, from, i);
    j < |slots| && u == CodegenUpdate(e, slots[j], j)
  }

  ghost predicate Pieces(slots: seq<SlotDesc>, from: nat, evaluators: seq<Evaluator>, code: seq<Update>) {
    |code| == |evaluators| && forall i :: 0 <= i < |code| ==> PieceOf(slots, from, evaluators[i], i, code[i])
  }

  lemma PiecesNext(slots: seq<SlotDesc>, from: nat, evaluators: seq<Evaluator>, code: seq<Update>, i: nat)
    requires i < |evaluators| && Pieces(slots, from, evaluators[..i], code)
    requires from <= |slots| && SlotOf(slots, from, i) < |slots|
    ensures var j := SlotOf(slots, from, i);
            Pieces(slots, from, evaluators[..i + 1], code + [CodegenUpdate(evaluators[i], slots[j], j)])
  {
  }

  /** CodegenUpdateAggTuple: one piece of code per evaluator, or nothing if a type is not supported. */
  method CodegenUpdateAggTuple(slots: seq<SlotDesc>, numGrouping: nat, evaluators: seq<Evaluator>)
    returns (code: Option<seq<Update>>)
    requires Enough(slots, numGrouping, |evaluators|)
    ensures code.None? <==> exists i :: 0 <= i < |evaluators| && Unsupported(slots, SlotOf(slots, numGrouping, i))
    ensures code.Some? ==> Pieces(slots, numGrouping, evaluators, code.value)
  {
    var updates: seq<Update> := [];
    var j: nat := numGrouping;
    for i := 0 to |evaluators|
      invariant j <= |slots| && NextSlot(slots, j) == SlotOf(slots, numGrouping, i)
      invariant forall k :: 0 <= k < i ==> !Unsupported(slots, SlotOf(slots, numGrouping, k))
      invariant Pieces(slots, numGrouping, evaluators[..i], updates)
    {
      EnoughFor(slots, numGrouping, |evaluators|, i);
      j := Skip(slots, j);
      if slots[j].slotType.Other? {
        return None;
      }
      PiecesNext(slots, numGrouping, evaluators, updates, i);
      updates := updates + [CodegenUpdate(evaluators[i], slots[j], j)];
      j := j + 1;
    }
    assert evaluators[..|evaluators|] == evaluators;
    return Some(updates);
  }

  // ----- the generated function on a tuple -----

  /** The first n pieces, applied to a tuple. */
  function RunPieces(code: seq<Update>, n: nat, tuple: seq<Slot>, row: Row): (r: seq<Slot>)
    requires n <= |code|
    ensures |r| == |tuple|
  {
    if n == 0 then tuple
    else
      var t := RunPieces(code, n - 1, tuple, row);
      var u := code[n - 1];
      if u.slot < |t| then t[u.slot := Updated(u, t[u.slot], row)] else t
  }

  /** The tuple after all rows. */
  function UpdateAggTuple(code: seq<Update>, tuple: seq<Slot>, rows: seq<Row>): (r: seq<Slot>)
    ensures |r| == |tuple|
  {
    if rows == [] then tuple
    else RunPieces(code, |code|, UpdateAggTuple(code, tuple, rows[..|rows| - 1]), rows[|rows| - 1])
  }

  /** Every evaluator updates its own slot and no other. */
  ghost predicate Increasing(code: seq<Update>) {
    forall i, k :: 0 <= i < k < |code| ==> code[i].slot < code[k].slot
  }

  lemma PiecesIncrease(slots: seq<SlotDesc>, from: nat, evaluators: seq<Evaluator>, code: seq<Update>)
    requires Pieces(slots, from, evaluators, code)
    ensures Increasing(code)
  {
    forall i, k | 0 <= i < k < |code| ensures code[i].slot < code[k].slot {
      assert PieceOf(slots, from, evaluators[i], i, code[i]) && PieceOf(slots, from, evaluators[k], k, code[k]);
      SlotsIncrease(slots, from, i, k);
    }
  }

  lemma {:induction false} AppliedOnce(code: seq<Update>, n: nat, tuple: seq<Slot>, row: Row, j: nat)
    requires Increasing(code) && n <= |code| && j < |tuple|
    ensures (forall i :: 0 <= i < n ==> code[i].slot != j) ==> RunPieces(code, n, tuple, row)[j] == tuple[j]
    ensures forall i :: 0 <= i < n && code[i].slot == j ==>
              RunPieces(code, n, tuple, row)[j] == Updated(code[i], tuple[j], row)
  {
    if n == 0 {
    } else {
      AppliedOnce(code, n - 1, tuple, row, j);
      assert forall i :: 0 <= i < n - 1 ==> code[i].slot < code[n - 1].slot;
    }
  }

  /** After any rows each evaluator's slot holds the aggregate of its input. */
  lemma {:induction false} TupleAggregates(slots: seq<SlotDesc>, from: nat, evaluators: seq<Evaluator>,
                                           code: seq<Update>,
                                           tuple: seq<Slot>, rows: seq<Row>, i: nat)
    requires Pieces(slots, from, evaluators, code) && |tuple| == |slots| && i < |evaluators|
    requires code[i].slot < |slots| && tuple[code[i].slot] == InitSlot(evaluators[i], slots[code[i].slot])
    ensures UpdateAggTuple(code, tuple, rows)[code[i].slot] == Generated(evaluators[i], slots[code[i].slot], rows)
  {
    if rows == [] {
    } else {
      var before, row := rows[..|rows| - 1], rows[|rows| - 1];
      TupleAggregates(slots, from, evaluators, code, tuple, before, i);
      PiecesIncrease(slots, from, evaluators, code);
      AppliedOnce(code, |code|, UpdateAggTuple(code, tuple, before), row, code[i].slot);
      assert PieceOf(slots, from, evaluators[i], i, code[i]);
    }
  }

  lemma {:induction false} GroupingKept(slots: seq<SlotDesc>, from: nat, evaluators: seq<Evaluator>, code: seq<Update>,
                                        tuple: seq<Slot>, rows: seq<Row>, j: nat)
    requires Pieces(slots, from, evaluators, code) && |tuple| == |slots| && j < from <= |slots|
    ensures UpdateAggTuple(code, tuple, rows)[j] == tuple[j]
  {
    if rows == [] {
    } else {
      var before, row := rows[..|rows| - 1], rows[|rows| - 1];
      GroupingKept(slots, from, evaluators, code, tuple, before, j);
      forall i | 0 <= i < |code| ensures code[i].slot != j {
        assert PieceOf(slots, from, evaluators[i], i, code[i]);
      }
      PiecesIncrease(slots, from, evaluators, code);
      AppliedOnce(code, |code|, UpdateAggTuple(code, tuple, before), row, j);
    }
  }

  /** Construction and generated updates together. */
  method Aggregate(slots: seq<SlotDesc>, group: seq<Field>, evaluators: seq<Evaluator>, rows: seq<Row>)
    returns (tuple: Option<seq<Slot>>)
    requires Enough(slots, |group|, |evaluators|)
    requires forall i :: 0 <= i < |evaluators| && SlotOf(slots, |group|, i) < |slots| ==>
               Typed(evaluators[i], slots[SlotOf(slots, |group|, i)])
    ensures tuple.Some? ==> |tuple.value| == |slots|
    ensures tuple.Some? ==> forall i :: 0 <= i < |evaluators| ==>
              var j := SlotOf(slots, |group|, i);
              j < |slots| && IsAggregate(evaluators[i], slots[j], rows, Observed(slots[j], tuple.value[j]))
    ensures tuple.Some? ==> forall i :: 0 <= i < |group| ==>
              tuple.value[i] == SetOutputSlot(slots[i], Slot(false, 0), group[i])
  {
    var start := ConstructAggTuple(slots, group, evaluators);
    var code := CodegenUpdateAggTuple(slots, |group|, evaluators);
    if code.None? {
      return None;
    }
    ghost var updates := code.value;
    tuple := Some(UpdateAggTuple(code.value, start, rows));
    forall i | 0 <= i < |evaluators|
      ensures var j := SlotOf(slots, |group|, i);
              j < |slots| && IsAggregate(evaluators[i], slots[j], rows, Observed(slots[j], tuple.value[j])) {
      assert PieceOf(slots, |group|, evaluators[i], i, updates[i]) && Inited(slots, |group|, evaluators[i], i, start);
      TupleAggregates(slots, |group|, evaluators, updates, start, rows, i);
      GeneratedAggregates(evaluators[i], slots[SlotOf(slots, |group|, i)], rows);
    }
    forall i | 0 <= i < |group| ensures tuple.value[i] == SetOutputSlot(slots[i], Slot(false, 0), group[i]) {
      GroupingKept(slots, |group|, evaluators, updates, start, rows, i);
    }
  }

  // ----- a grouped query -----

  /** The grouping slots of the tuple hold the values of the key. */
  ghost predicate HoldsKey(slots: seq<SlotDesc>, from: nat, k: Key, t: Tuple) {
    && |k.values| == from <= |slots| == |t.slots|
    && forall i :: 0 <= i < from ==> t.slots[i] == SetOutputSlot(slots[i], Slot(false, 0), k.values[i])
  }

  /** The aggregation constructs its tuples with ConstructAggTuple and updates them with the generated code. */
  ghost predicate Runs(agg: Agg, slots: seq<SlotDesc>, from: nat, evaluators: seq<Evaluator>, code: seq<Update>) {
    && Pieces(slots, from, evaluators, code)
    && (forall row :: |agg.group(row).values| == from)
    && (forall k :: |agg.construct(k).slots| == |slots|)
    && (forall k: Key :: |k.values| == from ==> HoldsKey(slots, from, k, agg.construct(k)))
    && (forall k, i :: 0 <= i < |evaluators| ==> Inited(slots, from, evaluators[i], i, agg.construct(k).slots))
    && (forall t, row :: agg.update(t, row) == Tuple(RunPieces(code, |code|, t.slots, row)))
  }

  lemma {:induction false} FoldIsUpdates(agg: Agg, slots: seq<SlotDesc>, from: nat, evaluators: seq<Evaluator>,
                                         code: seq<Update>,
                                         t: Tuple, rows: seq<Row>)
    requires Runs(agg, slots, from, evaluators, code)
    ensures Fold(agg, t, rows) == Tuple(UpdateAggTuple(code, t.slots, rows))
  {
    if rows == [] {
    } else {
      FoldIsUpdates(agg, slots, from, evaluators, code, t, rows[..|rows| - 1]);
    }
  }

  /** Every evaluator's slot of the tuple holds the aggregate of the rows. */
  ghost predicate Carries(slots: seq<SlotDesc>, from: nat, evaluators: seq<Evaluator>, t: Tuple, rows: seq<Row>) {
    && from <= |slots| == |t.slots|
    && forall i :: 0 <= i < |evaluators| ==>
         var j := SlotOf(slots, from, i);
         j < |slots| && IsAggregate(evaluators[i], slots[j], rows, Observed(slots[j], t.slots[j]))
  }

  ghost predicate AllTyped(slots: seq<SlotDesc>, from: nat, evaluators: seq<Evaluator>) {
    from <= |slots| && forall i :: 0 <= i < |evaluators| ==>
      SlotOf(slots, from, i) < |slots| && Typed(evaluators[i], slots[SlotOf(slots, from, i)])
  }

  lemma FoldCarries(agg: Agg, slots: seq<SlotDesc>, from: nat, evaluators: seq<Evaluator>, code: seq<Update>,
                    k: Key, rows: seq<Row>)
    requires Runs(agg, slots, from, evaluators, code) && AllTyped(slots, from, evaluators)
    ensures Carries(slots, from, evaluators, Fold(agg, agg.construct(k), rows), rows)
  {
    var start := agg.construct(k);
    FoldIsUpdates(agg, slots, from, evaluators, code, start, rows);
    forall i | 0 <= i < |evaluators|
      ensures var j := SlotOf(slots, from, i);
              IsAggregate(evaluators[i], slots[j], rows, Observed(slots[j], UpdateAggTuple(code, start.slots, rows)[j]))
    {
      assert PieceOf(slots, from, evaluators[i], i, code[i]) && Inited(slots, from, evaluators[i], i, start.slots);
      TupleAggregates(slots, from, evaluators, code, start.slots, rows, i);
      GeneratedAggregates(evaluators[i], slots[SlotOf(slots, from, i)], rows);
    }
  }

  lemma FoldHoldsKey(agg: Agg, slots: seq<SlotDesc>, from: nat, evaluators: seq<Evaluator>, code: seq<Update>,
                     k: Key, rows: seq<Row>)
    requires Runs(agg, slots, from, evaluators, code) && |k.values| == from
    ensures HoldsKey(slots, from, k, Fold(agg, agg.construct(k), rows))
  {
    var start := agg.construct(k);
    assert HoldsKey(slots, from, k, start);
    FoldIsUpdates(agg, slots, from, evaluators, code, start, rows);
    forall i | 0 <= i < from ensures UpdateAggTuple(code, start.slots, rows)[i] == start.slots[i] {
      GroupingKept(slots, from, evaluators, code, start.slots, rows, i);
    }
  }

  /** In the table of any aggregated rows, every evaluator's slot of every group holds the aggregate of
      exactly that group's rows, and the grouping slots hold its key. */
  lemma GroupedQuery(agg: Agg, slots: seq<SlotDesc>, from: nat, evaluators: seq<Evaluator>, code: seq<Update>,
                     table: map<Key, Tuple>, rows: seq<Row>, k: Key)
    requires Runs(agg, slots, from, evaluators, code) && AllTyped(slots, from, evaluators)
    requires Aggregates(agg, table, rows) && k in table
    ensures Carries(slots, from, evaluators, table[k], Only(agg, rows, k)) && HoldsKey(slots, from, k, table[k])
  {
    FoldCarries(agg, slots, from, evaluators, code, k, Only(agg, rows, k));
    FoldHoldsKey(agg, slots, from, evaluators, code, k, Only(agg, rows, k));
  }

  /** The input rows that a delivered tuple stands for. */
  function RowsOf(agg: Agg, grouped: bool, rows: seq<Row>, k: Key): seq<Row> {
    if grouped then Only(agg, rows, k) else rows
  }

  /** A delivered row: the finalized tuple of its group, which passes the conjuncts; before it was finalized, every
      evaluator's slot held the aggregate of exactly the group's rows, and the grouping slots its key. */
  ghost predicate Answers(agg: Agg, grouped: bool, slots: seq<SlotDesc>, from: nat, evaluators: seq<Evaluator>,
                          rows: seq<Row>, o: Out) {
    var group := RowsOf(agg, grouped, rows, o.key);
    var t := Fold(agg, agg.construct(o.key), group);
    && (grouped ==> group != [])
    && o.tuple == agg.finalize(t) && agg.conjuncts(o.key, o.tuple)
    && Carries(slots, from, evaluators, t, group) && HoldsKey(slots, from, o.key, t)
  }

  lemma {:induction false} GroupHasRow(agg: Agg, rows: seq<Row>, i: nat)
    requires i < |rows|
    ensures Only(agg, rows, agg.group(rows[i])) != []
  {
    if i == |rows| - 1 {
    } else {
      GroupHasRow(agg, rows[..|rows| - 1], i);
    }
  }

  lemma Answered(agg: Agg, grouped: bool, slots: seq<SlotDesc>, from: nat, evaluators: seq<Evaluator>,
                 code: seq<Update>,
                 table: map<Key, Tuple>, order: seq<Key>, n: nat, rows: seq<Row>, o: Out)
    requires Runs(agg, slots, from, evaluators, code) && AllTyped(slots, from, evaluators)
    requires if grouped then Aggregates(agg, table, rows)
             else table == map[Key([]) := Fold(agg, agg.construct(Key([])), rows)]
    requires (grouped || from == 0) && n <= |order| && o in Passing(agg, table, order, n)
    ensures Answers(agg, grouped, slots, from, evaluators, rows, o)
  {
    PassingAre(agg, table, order, n, o);
    var group := RowsOf(agg, grouped, rows, o.key);
    FoldCarries(agg, slots, from, evaluators, code, o.key, group);
    if grouped {
      var i :| 0 <= i < |rows| && agg.group(rows[i]) == o.key;
      GroupHasRow(agg, rows, i);
    }
    FoldHoldsKey(agg, slots, from, evaluators, code, o.key, group);
  }

  /** The finalized tuple of group k passes the conjuncts. */
  predicate Passes(agg: Agg, rows: seq<Row>, k: Key) {
    agg.conjuncts(k, agg.finalize(GroupTuple(agg, rows, k)))
  }

  lemma Delivered(agg: Agg, table: map<Key, Tuple>, order: seq<Key>, rows: seq<Row>, r: Row)
    requires Aggregates(agg, table, rows) && Lists(order, table) && r in rows && Passes(agg, rows, agg.group(r))
    ensures exists o :: o in Passing(agg, table, order, |order|) && o.key == agg.group(r)
  {
    var k := agg.group(r);
    var i :| 0 <= i < |rows| && rows[i] == r;
    assert agg.group(rows[i]) == k;
    PassingAre(agg, table, order, |order|, Out(k, agg.finalize(table[k])));
    assert order[..|order|] == order;
  }

  /** A whole query: whatever the batches and the capacities, every delivered row answers it and no group comes twice;
      at the end, without a limit, every group that passes the conjuncts has come. */
  method Query(node: AggregationNode, batches: seq<seq<Row>>, rooms: seq<nat>,
               ghost slots: seq<SlotDesc>, ghost from: nat, ghost evaluators: seq<Evaluator>, ghost code: seq<Update>)
    returns (out: seq<Out>, eos: bool)
    requires node.table == map[] && node.singleton == node.agg.construct(Key([])) && node.numReturned == 0
    requires Runs(node.agg, slots, from, evaluators, code) && AllTyped(slots, from, evaluators)
    requires node.grouped || from == 0
    modifies node
    ensures forall o :: o in out ==> Answers(node.agg, node.grouped, slots, from, evaluators, Flatten(batches), o)
    ensures DistinctKeys(out)
    ensures eos && node.grouped && node.limit == NO_LIMIT ==>
              forall r :: r in Flatten(batches) && Passes(node.agg, Flatten(batches), node.agg.group(r)) ==>
                            exists o :: o in out && o.key == node.agg.group(r)
  {
    out, eos := node.Run(batches, rooms);
    ghost var agg, g, rows := node.agg, node.progress, Flatten(batches);
    assert out == Passing(agg, g.initial, g.order, g.visited);
    forall o | o in out ensures Answers(agg, node.grouped, slots, from, evaluators, rows, o) {
      Answered(agg, node.grouped, slots, from, evaluators, code, g.initial, g.order, g.visited, rows, o);
    }
    PassingOnce(agg, g.initial, g.order, g.visited);
    if eos && node.grouped && node.limit == NO_LIMIT {
      forall r | r in rows && Passes(agg, rows, agg.group(r)) ensures exists o :: o in out && o.key == agg.group(r) {
        Delivered(agg, g.initial, g.order, rows, r);
      }
    }
  }
}
