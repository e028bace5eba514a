/** The aggregation operator: be/src/exec/aggregation-node.cc and be/src/exec/aggregation-node-ir.cc.

    What a query aggregates is given by an Agg: the grouping expressions, and how an aggregate
    tuple is constructed, updated with a row and finalized.
 */
module Aggregation {
  import opened Batches

  datatype Field = Null | Value(bits: int)

  datatype Row = Row(fields: seq<Field>)

  /** The values of the grouping expressions; two NULLs are the same value. */
  datatype Key = Key(values: seq<Field>)

  /** The memory of a slot: its null bit and its value.  A slot that is not nullable has no null bit. */
  datatype Slot = Slot(isNull: bool, value: int)

  /** The slots of an aggregate tuple. */
  datatype Tuple = Tuple(slots: seq<Slot>)

  datatype Agg = Agg(group: Row -> Key, construct: Key -> Tuple, update: (Tuple, Row) -> Tuple,
                     finalize: Tuple -> Tuple, conjuncts: (Key, Tuple) -> bool)

  // ----- the reference: each group's rows, folded in order -----

  /** The rows of one group. */
  function Only(agg: Agg, rows: seq<Row>, k: Key): seq<Row> {
    if rows == [] then []
    else
      var before, last := Only(agg, rows[..|rows| - 1], k), rows[|rows| - 1];
      if agg.group(last) == k then before + [last] else before
  }

  function Fold(agg: Agg, t: Tuple, rows: seq<Row>): Tuple {
    if rows == [] then t else agg.update(Fold(agg, t, rows[..|rows| - 1]), rows[|rows| - 1])
  }

  /** What a table of one tuple per group holds for k: the fold of exactly that group's rows. */
  function GroupTuple(agg: Agg, rows: seq<Row>, k: Key): Tuple {
    Fold(agg, agg.construct(k), Only(agg, rows, k))
  }

  // ----- the same, as far as row n -----

  function Groups(agg: Agg, rows: seq<Row>, n: nat): set<Key>
    requires n <= |rows|
  {
    if n == 0 then {} else Groups(agg, rows, n - 1) + {agg.group(rows[n - 1])}
  }

  function TupleTo(agg: Agg, rows: seq<Row>, n: nat, k: Key): Tuple
    requires n <= |rows|
  {
    if n == 0 then agg.construct(k)
    else if agg.group(rows[n - 1]) == k then agg.update(TupleTo(agg, rows, n - 1, k), rows[n - 1])
    else TupleTo(agg, rows, n - 1, k)
  }

  lemma {:induction false} GroupsAre(agg: Agg, rows: seq<Row>, n: nat, k: Key)
    requires n <= |rows|
    ensures k in Groups(agg, rows, n) <==> exists i :: 0 <= i < n && agg.group(rows[i]) == k
  {
    if n == 0 {
    } else {
      GroupsAre(agg, rows, n - 1, k);
    }
  }

  lemma {:induction false} TupleIsFold(agg: Agg, rows: seq<Row>, n: nat, k: Key)
    requires n <= |rows|
    ensures TupleTo(agg, rows, n, k) == GroupTuple(agg, rows[..n], k)
  {
    if n == 0 {
    } else {
      TupleIsFold(agg, rows, n - 1, k);
      assert rows[..n][..n - 1] == rows[..n - 1];
      var before := Only(agg, rows[..n - 1], k);
      assert (before + [rows[n - 1]])[..|before|] == before;
    }
  }

  lemma {:induction false} NoRowsYet(agg: Agg, rows: seq<Row>, n: nat, k: Key)
    requires n <= |rows| && k !in Groups(agg, rows, n)
    ensures TupleTo(agg, rows, n, k) == agg.construct(k)
  {
    if n == 0 {
    } else {
      NoRowsYet(agg, rows, n - 1, k);
    }
  }

  /** The table has one tuple per group of the first n rows, each up to date. */
  ghost predicate AggregatedTo(agg: Agg, table: map<Key, Tuple>, rows: seq<Row>, n: nat)
    requires n <= |rows|
  {
    table.Keys == Groups(agg, rows, n) && forall k :: k in table ==> table[k] == TupleTo(agg, rows, n, k)
  }

  /** The table has exactly the groups of the rows, each with the fold of exactly its rows. */
  ghost predicate Aggregates(agg: Agg, table: map<Key, Tuple>, rows: seq<Row>) {
    && (forall k :: k in table <==> exists i :: 0 <= i < |rows| && agg.group(rows[i]) == k)
    && (forall k :: k in table ==> table[k] == GroupTuple(agg, rows, k))
  }

  lemma AllAggregated(agg: Agg, table: map<Key, Tuple>, rows: seq<Row>)
    requires AggregatedTo(agg, table, rows, |rows|)
    ensures Aggregates(agg, table, rows)
  {
    assert rows[..|rows|] == rows;
    forall k ensures k in table <==> exists i :: 0 <= i < |rows| && agg.group(rows[i]) == k {
      GroupsAre(agg, rows, |rows|, k);
    }
    forall k | k in table ensures table[k] == GroupTuple(agg, rows, k) {
      TupleIsFold(agg, rows, |rows|, k);
    }
  }

  // ----- what is delivered -----

  datatype Out = Out(key: Key, tuple: Tuple)

  /** Of the first n tuples, finalized, those that pass the conjuncts. */
  function Passing(agg: Agg, table: map<Key, Tuple>, order: seq<Key>, n: nat): seq<Out>
    requires n <= |order|
  {
    if n == 0 then []
    else
      var k, before := order[n - 1], Passing(agg, table, order, n - 1);
      if k in table && agg.conjuncts(k, agg.finalize(table[k])) then before + [Out(k, agg.finalize(table[k]))]
      else before
  }

  lemma {:induction false} PassingPrefix(agg: Agg, table: map<Key, Tuple>, order: seq<Key>, m: nat, n: nat)
    requires m <= n <= |order|
    ensures Passing(agg, table, order, m) <= Passing(agg, table, order, n)
  {
    if m >= n {
    } else {
      PassingPrefix(agg, table, order, m, n - 1);
    }
  }

  /** What is delivered are the listed tuples, finalized, that pass the conjuncts. */
  lemma {:induction false} PassingAre(agg: Agg, table: map<Key, Tuple>, order: seq<Key>, n: nat, o: Out)
    requires n <= |order|
    ensures o in Passing(agg, table, order, n) <==>
            o.key in order[..n] && o.key in table && o.tuple == agg.finalize(table[o.key]) &&
            agg.conjuncts(o.key, o.tuple)
  {
    if n == 0 {
    } else {
      PassingAre(agg, table, order, n - 1, o);
      assert order[..n] == order[..n - 1] + [order[n - 1]];
    }
  }

  /** Every entry of the table comes once. */
  ghost predicate Lists(order: seq<Key>, table: map<Key, Tuple>) {
    && (forall i, j :: 0 <= i < j < |order| ==> order[i] != order[j])
    && (forall k :: k in table <==> k in order)
  }

  ghost predicate DistinctKeys(rows: seq<Out>) {
    forall i, j :: 0 <= i < j < |rows| ==> rows[i].key != rows[j].key
  }

  /** No group is delivered twice. */
  lemma {:induction false} PassingOnce(agg: Agg, table: map<Key, Tuple>, order: seq<Key>, n: nat)
    requires n <= |order| && Lists(order, table)
    ensures DistinctKeys(Passing(agg, table, order, n))
  {
    if n == 0 {
    } else {
      PassingOnce(agg, table, order, n - 1);
      var before := Passing(agg, table, order, n - 1);
      forall i | 0 <= i < |before| ensures before[i].key != order[n - 1] {
        PassingAre(agg, table, order, n - 1, before[i]);
        assert before[i] in before;
      }
    }
  }

  /** The first n tuples have been finalized, once, and the others not. */
  ghost predicate FinalizedTo(agg: Agg, table: map<Key, Tuple>, initial: map<Key, Tuple>, order: seq<Key>, n: nat) {
    && table.Keys == initial.Keys
    && forall i :: 0 <= i < |order| && order[i] in initial ==>
         table[order[i]] == if i < n then agg.finalize(initial[order[i]]) else initial[order[i]]
  }

  lemma FinalizedNext(agg: Agg, table: map<Key, Tuple>, initial: map<Key, Tuple>, order: seq<Key>, n: nat)
    requires Lists(order, initial) && FinalizedTo(agg, table, initial, order, n) && n < |order|
    ensures FinalizedTo(agg, table[order[n] := agg.finalize(table[order[n]])], initial, order, n + 1)
    ensures table[order[n]] == initial[order[n]]
  {
  }

  /** How far the delivery is: the tuples visited have been finalized, once, and those of them that pass have been
      emitted, within the limit.  Only at the limit the iterator stays on a tuple that has been visited. */
  datatype Progress = Progress(initial: map<Key, Tuple>, order: seq<Key>, visited: nat, emitted: seq<Out>) {
    ghost predicate Valid(agg: Agg, limit: int, table: map<Key, Tuple>, pos: nat) {
      && Lists(order, initial) && FinalizedTo(agg, table, initial, order, visited)
      && pos <= visited <= |order| && visited <= pos + 1 && (pos < visited ==> Reached(limit, |emitted|))
      && emitted == Passing(agg, initial, order, visited)
      && (limit == NO_LIMIT || |emitted| <= limit || emitted == [])
    }
  }

  predicate Reached(limit: int, n: nat) {
    limit != NO_LIMIT && n >= limit
  }

  /** The progress after a visit of the tuple at pos. */
  ghost function Visited(agg: Agg, g: Progress, out: Out): Progress {
    Progress(g.initial, g.order, g.visited + 1,
             if agg.conjuncts(out.key, out.tuple) then g.emitted + [out] else g.emitted)
  }

  lemma VisitKeeps(agg: Agg, limit: int, table: map<Key, Tuple>, pos: nat, g: Progress)
    requires g.Valid(agg, limit, table, pos) && pos == g.visited < |g.order| && !Reached(limit, |g.emitted|)
    ensures g.order[pos] in table && g.order[pos] in g.initial && table[g.order[pos]] == g.initial[g.order[pos]]
    ensures var k := g.order[pos];
            var t := agg.finalize(table[k]);
            var g' := Visited(agg, g, Out(k, t));
            g'.Valid(agg, limit, table[k := t], if Reached(limit, |g'.emitted|) then pos else pos + 1)
  {
    FinalizedNext(agg, table, g.initial, g.order, pos);
  }

  /** When nothing is left, everything has been emitted. */
  lemma AllEmitted(agg: Agg, limit: int, table: map<Key, Tuple>, pos: nat, g: Progress)
    requires g.Valid(agg, limit, table, pos) && (pos == |g.order| || Reached(limit, |g.emitted|))
    ensures g.emitted == Limited(limit, Passing(agg, g.initial, g.order, |g.order|))
  {
    PassingPrefix(agg, g.initial, g.order, g.visited, |g.order|);
  }

  lemma Appended(before: seq<Out>, rows: seq<Out>, o: Out)
    ensures before + (rows + [o]) == before + rows + [o]
  {
  }

  lemma FlattenNext(batches: seq<seq<Row>>, i: nat)
    requires i < |batches|
    ensures var n, all := |Flatten(batches[..i])|, Flatten(batches);
            && Flatten(batches[..i + 1]) == Flatten(batches[..i]) + batches[i] && Flatten(batches[..i + 1]) <= all
            && n + |batches[i]| <= |all| && all[n..n + |batches[i]|] == batches[i]
  {
    assert batches[..i + 1] == batches[..i] + [batches[i]];
    FlattenAppend(batches[..i], batches[i]);
    FlattenSplit(batches, i + 1);
  }

  class AggregationNode {
    const agg: Agg
    const limit: int
    const grouped: bool
    var singleton: Tuple          // without grouping, the only tuple
    var table: map<Key, Tuple>
    var order: seq<Key>           // how the iterator goes through the table
    var pos: nat                  // output_iterator_
    var numReturned: nat
    ghost var progress: Progress  // initial is the table before any tuple was finalized

    constructor (a: Agg, l: int, g: bool)
      ensures agg == a && limit == l && grouped == g && table == map[] && singleton == a.construct(Key([])) &&
              numReturned == 0
    {
      agg, limit, grouped, table, order, pos, numReturned := a, l, g, map[], [], 0, 0;
      singleton := a.construct(Key([]));
      progress := Progress(map[], [], 0, []);
    }

    ghost predicate Delivering()
      reads this`table, this`order, this`pos, this`numReturned, this`progress
    {
      && progress.Valid(agg, limit, table, pos)
      && progress.order == order && numReturned == |progress.emitted|
    }

    predicate ReachedLimit()
      reads this`numReturned
    {
      Reached(limit, numReturned)
    }

    /** Finds or constructs the tuple of the row's group, and updates it. */
    method ProcessRow(row: Row, ghost all: seq<Row>, ghost n: nat)
      requires n < |all| && all[n] == row && AggregatedTo(agg, table, all, n)
      modifies this`table
      ensures AggregatedTo(agg, table, all, n + 1)
    {
      var k := agg.group(row);
      var tuple;
      if k !in table {
        NoRowsYet(agg, all, n, k);
        tuple := agg.construct(k);
        table := table[k := tuple];
      } else {
        tuple := table[k];
      }
      table := table[k := agg.update(tuple, row)];
    }

    /** The batch is the part of all input that begins at row n. */
    method ProcessRowBatchWithGrouping(batch: seq<Row>, ghost all: seq<Row>, ghost n: nat)
      requires n + |batch| <= |all| && all[n..n + |batch|] == batch && AggregatedTo(agg, table, all, n)
      modifies this`table
      ensures AggregatedTo(agg, table, all, n + |batch|)
    {
      for i := 0 to |batch|
        invariant AggregatedTo(agg, table, all, n + i)
      {
        assert all[n + i] == all[n..n + |batch|][i];
        ProcessRow(batch[i], all, n + i);
      }
    }

    method ProcessRowBatchNoGrouping(batch: seq<Row>, ghost all: seq<Row>, ghost n: nat)
      requires n + |batch| <= |all| && all[n..n + |batch|] == batch &&
               singleton == Fold(agg, agg.construct(Key([])), all[..n])
      modifies this`singleton
      ensures singleton == Fold(agg, agg.construct(Key([])), all[..n + |batch|])
    {
      for i := 0 to |batch|
        invariant singleton == Fold(agg, agg.construct(Key([])), all[..n + i])
      {
        assert all[n + i] == all[n..n + |batch|][i];
        assert all[..n + i + 1][..n + i] == all[..n + i];
        singleton := agg.update(singleton, batch[i]);
      }
    }

    /** An iterator over the table: any order, every entry once. */
    method Begin()
      modifies this`order, this`pos
      ensures Lists(order, table) && pos == 0
    {
      order, pos := [], 0;
      var rest := table.Keys;
      while rest != {}
        invariant forall i, j :: 0 <= i < j < |order| ==> order[i] != order[j]
        invariant forall k :: k in table <==> k in order || k in rest
        invariant (forall k :: k in rest ==> k !in order) && pos == 0
        decreases |rest|
      {
        var k :| k in rest;
        order, rest := order + [k], rest - {k};
      }
    }

    ghost predicate Processed(all: seq<Row>, n: nat)
      requires n <= |all|
      reads this
    {
      if grouped then AggregatedTo(agg, table, all, n)
      else table == map[] && singleton == Fold(agg, agg.construct(Key([])), all[..n])
    }

    /** Consumes one of the child's batches. */
    method ProcessBatch(batch: seq<Row>, ghost all: seq<Row>, ghost n: nat)
      requires n + |batch| <= |all| && all[n..n + |batch|] == batch && Processed(all, n)
      modifies this`table, this`singleton
      ensures Processed(all, n + |batch|)
    {
      if grouped {
        ProcessRowBatchWithGrouping(batch, all, n);
      } else {
        ProcessRowBatchNoGrouping(batch, all, n);
      }
    }

    /** Sets up the iterator. */
    method Iterate()
      requires numReturned == 0
      modifies this`order, this`pos, this`progress
      ensures Delivering() && progress.emitted == [] && progress.initial == table
    {
      Begin();
      progress := Progress(table, order, 0, []);
    }

    /** Puts the tuple of an aggregation without grouping into the table, and sets up the iterator. */
    method Finish(ghost all: seq<Row>)
      requires Processed(all, |all|) && numReturned == 0
      modifies this
      ensures Delivering() && progress.emitted == []
      ensures if grouped then Aggregates(agg, progress.initial, all)
              else progress.initial == map[Key([]) := Fold(agg, agg.construct(Key([])), all)]
    {
      if !grouped {
        assert all[..|all|] == all;
        table := table[Key([]) := singleton];
      } else {
        AllAggregated(agg, table, all);
      }
      Iterate();
    }

    /** Consumes all input. */
    method Open(batches: seq<seq<Row>>)
      requires table == map[] && singleton == agg.construct(Key([])) && numReturned == 0
      modifies this
      ensures Delivering() && progress.emitted == []
      ensures if grouped then Aggregates(agg, progress.initial, Flatten(batches))
              else progress.initial == map[Key([]) := Fold(agg, agg.construct(Key([])), Flatten(batches))]
    {
      ghost var all, n := Flatten(batches), 0;
      for i := 0 to |batches|
        invariant numReturned == 0
        invariant n == |Flatten(batches[..i])| <= |all| && all[..n] == Flatten(batches[..i]) && Processed(all, n)
      {
        FlattenNext(batches, i);
        ProcessBatch(batches[i], all, n);
        n := n + |batches[i]|;
      }
      assert batches[..|batches|] == batches;
      Finish(all);
    }

    /** Finalizes the tuple at the iterator, delivers it if it passes the conjuncts, and moves on
        unless the limit is reached. */
    method Visit() returns (out: Out, pass: bool)
      requires Delivering() && pos == progress.visited < |order| && !ReachedLimit()
      modifies this`table, this`numReturned, this`pos, this`progress
      ensures Delivering() && progress.initial == old(progress).initial && progress.order == old(progress).order
      ensures progress.emitted == if pass then old(progress).emitted + [out] else old(progress).emitted
      ensures pos == if ReachedLimit() then old(pos) else old(pos) + 1
    {
      VisitKeeps(agg, limit, table, pos, progress);
      var k := order[pos];
      var tuple := agg.finalize(table[k]);
      out := Out(k, tuple);
      pass := agg.conjuncts(k, tuple);
      table := table[k := tuple];
      progress := Visited(agg, progress, out);
      if pass {
        numReturned := numReturned + 1;
      }
      if !ReachedLimit() {
        pos := pos + 1;
      }
    }

    /** Visits tuples until the batch has no more room, the tuples are used up or the limit is reached. */
    method Fill(room: nat) returns (rows: seq<Out>)
      requires Delivering() && !ReachedLimit()
      modifies this`table, this`numReturned, this`pos, this`progress
      ensures Delivering() && progress.initial == old(progress).initial && progress.order == old(progress).order
      ensures progress.emitted == old(progress).emitted + rows && |rows| <= room
      ensures pos == |order| || ReachedLimit() || |rows| == room
    {
      rows := [];
      ghost var g := progress;
      while pos < |order| && |rows| < room
        invariant Delivering() && !ReachedLimit() && progress.initial == g.initial && progress.order == g.order
        invariant progress.emitted == g.emitted + rows && |rows| <= room
        decreases |order| - pos
      {
        var out, pass := Visit();
        if pass {
          Appended(g.emitted, rows, out);
          rows := rows + [out];
        }
        if ReachedLimit() {
          return;
        }
      }
    }

    method GetNext(room: nat) returns (rows: seq<Out>, eos: bool)
      requires Delivering()
      modifies this
      ensures Delivering() && progress.initial == old(progress).initial && progress.order == old(progress).order
      ensures progress.emitted == old(progress).emitted + rows && |rows| <= room
      ensures eos ==> progress.emitted == Limited(limit, Passing(agg, progress.initial, order, |order|))
      ensures !eos ==> |rows| == room
    {
      if ReachedLimit() {
        AllEmitted(agg, limit, table, pos, progress);
        return [], true;
      }
      rows := Fill(room);
      eos := pos == |order| || ReachedLimit();
      if eos {
        AllEmitted(agg, limit, table, pos, progress);
      }
    }

    /** A whole run: output batches of any capacities, until the end. */
    method Run(batches: seq<seq<Row>>, rooms: seq<nat>) returns (rows: seq<Out>, eos: bool)
      requires table == map[] && singleton == agg.construct(Key([])) && numReturned == 0
      modifies this
      ensures Delivering()
      ensures if grouped then Aggregates(agg, progress.initial, Flatten(batches))
              else progress.initial == map[Key([]) := Fold(agg, agg.construct(Key([])), Flatten(batches))]
      ensures rows == progress.emitted &&
              (eos ==> rows == Limited(limit, Passing(agg, progress.initial, order, |order|)))
    {
      Open(batches);
      ghost var tuples := progress.initial;
      rows, eos := [], false;
      for i := 0 to |rooms|
        invariant Delivering() && progress.initial == tuples && rows == progress.emitted && !eos
      {
        var more;
        more, eos := GetNext(rooms[i]);
        rows := rows + more;
        if eos {
          break;
        }
      }
    }
  }
}
