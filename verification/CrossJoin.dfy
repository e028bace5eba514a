/** The cross join operator: be/src/exec/cross-join-node.cc, be/src/exec/blocking-join-node.cc
    and the list of build batches in be/src/exec/row-batch-list.h.

    A row is the sequence of its tuples.  The left child is the sequence of the batches it
    will still deliver; batches may be empty.
 */
module CrossJoin {
  import opened Batches
  import opened Folding

  type Tuple = int

  datatype Row = Row(tuples: seq<Tuple>)

  /** The configuration of a join: which tuples of an output row come from the build side,
      and the conjuncts. */
  datatype Join = Join(buildTupleIdx: seq<nat>, conjuncts: Row -> bool)

  // ----- the reference: a nested loop, left rows first -----

  /** The output row before filtering: the left row with the first n build tuples put in place. */
  function Overlay(idx: seq<nat>, left: seq<Tuple>, build: seq<Tuple>, n: nat): (out: seq<Tuple>)
    requires n <= |idx| && n <= |build|
    ensures |out| == |left|
  {
    if n == 0 then left
    else
      var out := Overlay(idx, left, build, n - 1);
      if idx[n - 1] < |out| then out[idx[n - 1] := build[n - 1]] else out
  }

  function OutputRow(j: Join, left: Row, build: Row): Row {
    if |j.buildTupleIdx| <= |build.tuples| then
      Row(Overlay(j.buildTupleIdx, left.tuples, build.tuples, |j.buildTupleIdx|))
    else left
  }

  function RowProduct(j: Join, left: Row, build: seq<Row>): seq<Row> {
    if build == [] then []
    else
      var out, rest := OutputRow(j, left, build[0]), RowProduct(j, left, build[1..]);
      if j.conjuncts(out) then [out] + rest else rest
  }

  function Product(j: Join, left: seq<Row>, build: seq<Row>): seq<Row> {
    if left == [] then [] else RowProduct(j, left[0], build) + Product(j, left[1..], build)
  }

  lemma {:induction false} ProductConcat(j: Join, a: seq<Row>, b: seq<Row>, build: seq<Row>)
    ensures Product(j, a + b, build) == Product(j, a, build) + Product(j, b, build)
    decreases |a|
  {
    if a == [] {
      assert a + b == b;
    } else {
      assert (a + b)[0] == a[0] && (a + b)[1..] == a[1..] + b;
      ProductConcat(j, a[1..], b, build);
    }
  }

  /** The tuples of an output row: the build tuples in their places, the left tuples elsewhere. */
  lemma {:induction false} OverlayTuples(idx: seq<nat>, left: seq<Tuple>, build: seq<Tuple>, n: nat)
    requires n <= |idx| && n <= |build|
    requires forall i, k :: 0 <= i < k < |idx| ==> idx[i] != idx[k]
    requires forall i :: 0 <= i < |idx| ==> idx[i] < |left|
    ensures forall i :: 0 <= i < n ==> Overlay(idx, left, build, n)[idx[i]] == build[i]
    ensures forall t :: 0 <= t < |left| && t !in idx[..n] ==> Overlay(idx, left, build, n)[t] == left[t]
  {
    if n == 0 {
    } else {
      OverlayTuples(idx, left, build, n - 1);
      assert idx[..n] == idx[..n - 1] + [idx[n - 1]];
    }
  }

  // ----- the iterator over the build batches -----

  lemma Regroup(a: seq<Row>, b: seq<Row>, c: seq<Row>)
    ensures a + (b + c) == a + b + c
  {
  }

  /** The build rows from row r of batch b on. */
  function BuildFrom(batches: seq<seq<Row>>, b: nat, r: nat): seq<Row>
    requires b <= |batches| && (if b < |batches| then r < |batches[b]| else r == 0)
  {
    if b == |batches| then [] else batches[b][r..] + Flatten(batches[b + 1..])
  }

  predicate NoEmpty(batches: seq<seq<Row>>) {
    forall i :: 0 <= i < |batches| ==> batches[i] != []
  }

  lemma BuildNext(batches: seq<seq<Row>>, b: nat, r: nat)
    requires NoEmpty(batches) && b < |batches| && r < |batches[b]|
    ensures BuildFrom(batches, b, r) ==
            [batches[b][r]] +
            (if r + 1 == |batches[b]| then BuildFrom(batches, b + 1, 0) else BuildFrom(batches, b, r + 1))
  {
    var batch := batches[b];
    var later := Flatten(batches[b + 1..]);
    assert batch[r..] == [batch[r]] + batch[r + 1..];
    Regroup([batch[r]], batch[r + 1..], later);
    if r + 1 == |batch| {
      assert batch[r + 1..] + later == later;
      if b + 1 < |batches| {
        FlattenFrom(batches, b + 1);
        assert batches[b + 1][0..] == batches[b + 1];
      }
    }
  }

  lemma BuildAll(batches: seq<seq<Row>>)
    requires NoEmpty(batches)
    ensures BuildFrom(batches, 0, 0) == Flatten(batches)
  {
    if batches != [] {
      assert batches[0][0..] == batches[0];
    }
  }

  /** An output batch: the committed rows are rows[..numRows]. */
  class RowBatch {
    const rows: array<Row>
    var numRows: nat

    constructor (capacity: nat)
      ensures rows.Length == capacity && numRows == 0 && fresh(rows)
    {
      rows := new Row[capacity](_ => Row([]));
      numRows := 0;
    }

    ghost function Contents(): seq<Row>
      requires numRows <= rows.Length
      reads this, rows
    {
      rows[..numRows]
    }

    predicate IsFull()
      reads this
    {
      numRows == rows.Length
    }
  }

  /** One call of GetNext: the capacity of the output batch and when it has accumulated too much memory. */
  datatype Call = Call(capacity: nat, crowded: nat -> bool)

  lemma Extended(all: seq<Row>, before: seq<Row>, out: seq<Row>, more: seq<Row>, rest: seq<Row>, rest': seq<Row>,
                 batch: RowBatch)
    returns (out': seq<Row>)
    requires all == out + rest && rest == more + rest'
    requires batch.numRows <= batch.rows.Length && batch.Contents() == before + out + more
    ensures all == out' + rest' && |out'| == |out| + |more|
    ensures batch.Contents() == before + out'
  {
    out' := out + more;
  }

  lemma Committed(batch: RowBatch, before: seq<Row>, out: seq<Row>)
    requires Written(batch.rows, |before|, out) && batch.numRows == |before| + |out|
    requires before <= batch.rows[..]
    ensures batch.rows[..batch.numRows] == before + out
  {
  }

  lemma Reassociate(a: seq<Row>, b: seq<Row>, c: seq<Row>, d: seq<Row>, e: seq<Row>)
    requires a + b == c + d
    ensures a + (b + e) == c + (d + e)
  {
    assert a + (b + e) == a + b + e;
    assert c + (d + e) == c + d + e;
  }

  lemma RowProductFirst(j: Join, left: Row, build: Row, rest: seq<Row>)
    ensures RowProduct(j, left, [build] + rest) ==
            if j.conjuncts(OutputRow(j, left, build)) then [OutputRow(j, left, build)] + RowProduct(j, left, rest)
            else RowProduct(j, left, rest)
  {
    assert ([build] + rest)[1..] == rest;
  }

  /** out is in the window that starts at base. */
  ghost predicate Written(rows: array<Row>, base: nat, out: seq<Row>)
    reads rows
  {
    base + |out| <= rows.Length && forall k :: 0 <= k < |out| ==> rows[base + k] == out[k]
  }

  lemma NextLeft(j: Join, leftBatch: seq<Row>, pos: nat, buildBatches: seq<seq<Row>>)
    requires NoEmpty(buildBatches) && pos < |leftBatch|
    ensures Product(j, leftBatch[pos..], Flatten(buildBatches)) ==
            RowProduct(j, leftBatch[pos], BuildFrom(buildBatches, 0, 0)) +
            Product(j, leftBatch[pos + 1..], Flatten(buildBatches))
  {
    BuildAll(buildBatches);
    assert leftBatch[pos..][1..] == leftBatch[pos + 1..];
  }

  lemma FirstRow(j: Join, batch: seq<Row>, later: seq<Row>, buildBatches: seq<seq<Row>>)
    requires batch != [] && NoEmpty(buildBatches)
    ensures RowProduct(j, batch[0], BuildFrom(buildBatches, 0, 0)) + Product(j, batch[1..], Flatten(buildBatches))
            + Product(j, later, Flatten(buildBatches)) == Product(j, batch + later, Flatten(buildBatches))
  {
    BuildAll(buildBatches);
    ProductConcat(j, batch, later, Flatten(buildBatches));
  }

  class CrossJoinNode {
    const join: Join
    const limit: int
    var buildBatches: seq<seq<Row>>
    var batchIt: nat                  // current_build_row_
    var rowIdx: nat
    var leftInput: seq<seq<Row>>      // what the left child will still deliver
    var leftBatch: seq<Row>
    var leftPos: nat
    var leftEos: bool
    var currentLeft: Row
    var eos: bool
    var numReturned: nat

    ghost predicate Valid()
      reads this
    {
      && NoEmpty(buildBatches)
      && batchIt <= |buildBatches| &&
      (if batchIt < |buildBatches| then rowIdx < |buildBatches[batchIt]| else rowIdx == 0)
      && leftPos <= |leftBatch|
      && (leftEos <==> leftInput == [])
    }

    /** What the current batch of left rows will still produce. */
    ghost function BatchRemaining(): seq<Row>
      requires batchIt <= |buildBatches| &&
               (if batchIt < |buildBatches| then rowIdx < |buildBatches[batchIt]| else rowIdx == 0)
      requires leftPos <= |leftBatch|
      reads this
    {
      RowProduct(join, currentLeft, BuildFrom(buildBatches, batchIt, rowIdx))
      + Product(join, leftBatch[leftPos..], Flatten(buildBatches))
    }

    /** What the join will still produce. */
    ghost function Remaining(): seq<Row>
      requires batchIt <= |buildBatches| &&
               (if batchIt < |buildBatches| then rowIdx < |buildBatches[batchIt]| else rowIdx == 0)
      requires leftPos <= |leftBatch|
      reads this
    {
      if eos then [] else BatchRemaining() + Product(join, Flatten(leftInput), Flatten(buildBatches))
    }

    /** rest is what the join will still produce.  The trigger keeps it folded
        except where a proof mentions Unfold. */
    ghost predicate Remains(rest: seq<Row>)
      reads this
    {
      Valid() && forall u: bool {:trigger Unfold(u)} :: Unfold(u) ==> rest == Remaining()
    }

    predicate ReachedLimit()
      reads this
    {
      limit != NO_LIMIT && numReturned >= limit
    }

    constructor (j: Join, l: int, left: seq<seq<Row>>)
      ensures join == j && limit == l && leftInput == left && buildBatches == [] && numReturned == 0
    {
      join, limit, leftInput := j, l, left;
      buildBatches, batchIt, rowIdx, leftBatch, leftPos, leftEos := [], 0, 0, [], 0, false;
      currentLeft, eos, numReturned := Row([]), false, 0;
    }

    /** Collects all batches of the right child; empty ones are not kept. */
    method ConstructBuildSide(right: seq<seq<Row>>)
      requires buildBatches == []
      modifies this`buildBatches
      ensures NoEmpty(buildBatches) && Flatten(buildBatches) == Flatten(right)
    {
      for i := 0 to |right|
        invariant NoEmpty(buildBatches) && Flatten(buildBatches) + Flatten(right[i..]) == Flatten(right)
      {
        assert right[i..][0] == right[i] && right[i..][1..] == right[i + 1..];
        if right[i] != [] {
          FlattenAppend(buildBatches, right[i]);
          buildBatches := buildBatches + [right[i]];
        }
      }
      assert right[|right|..] == [];
    }

    /** Takes the next batch of the left child. */
    method FetchLeft()
      requires leftInput != []
      modifies this`leftBatch, this`leftInput, this`leftEos, this`leftPos
      ensures Flatten(old(leftInput)) == leftBatch + Flatten(leftInput) && |leftInput| < |old(leftInput)|
      ensures leftBatch == [] ==> Flatten(leftInput) == Flatten(old(leftInput))
      ensures (leftEos <==> leftInput == []) && leftPos == 0
    {
      leftBatch, leftInput := leftInput[0], leftInput[1..];
      leftEos := leftInput == [];
      leftPos := 0;
      assert [] + Flatten(leftInput) == Flatten(leftInput);
    }

    /** Starts a left batch that has a row. */
    method StartLeft()
      requires NoEmpty(buildBatches) && leftBatch != [] && !eos && (leftEos <==> leftInput == [])
      modifies this`currentLeft, this`leftPos, this`batchIt, this`rowIdx
      ensures Valid() && Remaining() == Product(join, leftBatch + Flatten(leftInput), Flatten(buildBatches))
    {
      currentLeft := leftBatch[0];
      leftPos := 1;
      batchIt, rowIdx := 0, 0;
      FirstRow(join, leftBatch, Flatten(leftInput), buildBatches);
    }

    /** Seeds the left side: reads batches until one has a row, or the input is used up. */
    method Open()
      requires NoEmpty(buildBatches) && leftInput != []
      modifies this
      ensures Valid() && buildBatches == old(buildBatches) && numReturned == old(numReturned)
      ensures Remaining() == Product(join, Flatten(old(leftInput)), Flatten(buildBatches))
    {
      ghost var left := Flatten(leftInput);
      eos := false;
      while true
        invariant buildBatches == old(buildBatches) && numReturned == old(numReturned) && leftInput != [] && !eos
        invariant Flatten(leftInput) == left
        decreases |leftInput|
      {
        FetchLeft();
        if leftBatch != [] {
          StartLeft();
          return;
        }
        if leftEos {
          batchIt, rowIdx := 0, 0;
          eos := true;
          return;
        }
      }
    }

    /** The output row of the current pair of rows. */
    method CreateOutputRow(left: Row, build: Row) returns (out: Row)
      ensures out == OutputRow(join, left, build)
    {
      out := left;
      if |join.buildTupleIdx| <= |build.tuples| {
        var tuples := left.tuples;
        for i := 0 to |join.buildTupleIdx|
          invariant tuples == Overlay(join.buildTupleIdx, left.tuples, build.tuples, i)
        {
          if join.buildTupleIdx[i] < |tuples| {
            tuples := tuples[join.buildTupleIdx[i] := build.tuples[i]];
          }
        }
        out := Row(tuples);
      }
    }

    /** The build rows from the iterator on. */
    ghost function BuildLeft(): seq<Row>
      requires Valid()
      reads this
    {
      BuildFrom(buildBatches, batchIt, rowIdx)
    }

    /** Moves the build iterator to the next row. */
    method Next()
      requires Valid() && batchIt < |buildBatches|
      modifies this`batchIt, this`rowIdx
      ensures Valid()
      ensures old(BuildLeft()) == [old(buildBatches[batchIt][rowIdx])] + BuildLeft()
    {
      BuildNext(buildBatches, batchIt, rowIdx);
      rowIdx := rowIdx + 1;
      if rowIdx == |buildBatches[batchIt]| {
        batchIt, rowIdx := batchIt + 1, 0;
      }
    }

    /** Writes the output row of the current pair behind the rows `done` of the window that starts at
        `base`, and moves on to the next build row. */
    method EmitPair(batch: RowBatch, base: nat, ghost done: seq<Row>, at: nat) returns (kept: bool, ghost out: seq<Row>)
      requires Valid() && batchIt < |buildBatches| && at == base + |done| < batch.rows.Length
      requires Written(batch.rows, base, done)
      modifies this`batchIt, this`rowIdx, batch.rows
      ensures Valid() && |BuildLeft()| < old(|BuildLeft()|)
      ensures forall k :: 0 <= k < batch.rows.Length && k != at ==> batch.rows[k] == old(batch.rows[k])
      ensures Written(batch.rows, base, out) && |out| == if kept then |done| + 1 else |done|
      ensures done + old(RowProduct(join, currentLeft, BuildLeft())) == out + RowProduct(join, currentLeft, BuildLeft())
    {
      var build := buildBatches[batchIt][rowIdx];
      var row := CreateOutputRow(currentLeft, build);
      batch.rows[at] := row;
      Next();
      kept := join.conjuncts(row);
      out := if kept then done + [row] else done;
      RowProductFirst(join, currentLeft, build, BuildLeft());
      Regroup(done, [row], RowProduct(join, currentLeft, BuildLeft()));
    }

    /** Joins the current left row with the build rows from the iterator on, until there are no more
        or the window of `max` rows that starts at `base` is full; `done` is in it already. */
    method JoinRow(batch: RowBatch, base: nat, max: nat, returned: nat, ghost done: seq<Row>)
      returns (returned': nat, ghost out: seq<Row>)
      requires Valid() && |done| == returned < max && base + max <= batch.rows.Length && Written(batch.rows, base, done)
      modifies this`batchIt, this`rowIdx, batch.rows
      ensures Valid() && |out| == returned' <= max && (returned' < max ==> batchIt == |buildBatches|)
      ensures Written(batch.rows, base, out)
      ensures forall k :: 0 <= k < batch.rows.Length && !(base <= k < base + max) ==>
                batch.rows[k] == old(batch.rows[k])
      ensures done + old(RowProduct(join, currentLeft, BuildLeft())) == out + RowProduct(join, currentLeft, BuildLeft())
    {
      returned', out := returned, done;
      ghost var all := done + RowProduct(join, currentLeft, BuildLeft());
      while batchIt < |buildBatches|
        invariant Valid() && |out| == returned' < max && Written(batch.rows, base, out)
        invariant forall k :: 0 <= k < batch.rows.Length && !(base <= k < base + max) ==>
                    batch.rows[k] == old(batch.rows[k])
        invariant all == out + RowProduct(join, currentLeft, BuildLeft())
        decreases |BuildLeft()|
      {
        var kept;
        kept, out := EmitPair(batch, base, out, base + returned');
        if kept {
          returned' := returned' + 1;
          if returned' == max {
            return;
          }
        }
      }
    }

    /** JoinRow, seen from the whole left batch. */
    method JoinCurrent(batch: RowBatch, base: nat, max: nat, returned: nat, ghost done: seq<Row>)
      returns (returned': nat, ghost out: seq<Row>)
      requires Valid() && |done| == returned < max && base + max <= batch.rows.Length && Written(batch.rows, base, done)
      modifies this`batchIt, this`rowIdx, batch.rows
      ensures Valid() && |out| == returned' <= max && (returned' < max ==> batchIt == |buildBatches|)
      ensures Written(batch.rows, base, out)
      ensures forall k :: 0 <= k < batch.rows.Length && !(base <= k < base + max) ==>
                batch.rows[k] == old(batch.rows[k])
      ensures done + old(BatchRemaining()) == out + BatchRemaining()
    {
      ghost var row := RowProduct(join, currentLeft, BuildLeft());
      ghost var later := Product(join, leftBatch[leftPos..], Flatten(buildBatches));
      returned', out := JoinRow(batch, base, max, returned, done);
      Reassociate(done, row, out, RowProduct(join, currentLeft, BuildLeft()), later);
    }

    /** Moves on to the next row of the left batch. */
    method NextLeftRow()
      requires Valid() && batchIt == |buildBatches| && leftPos < |leftBatch|
      modifies this`batchIt, this`rowIdx, this`leftPos, this`currentLeft
      ensures Valid() && leftPos == old(leftPos) + 1 && BatchRemaining() == old(BatchRemaining())
    {
      NextLeft(join, leftBatch, leftPos, buildBatches);
      assert [] + Product(join, leftBatch[leftPos..], Flatten(buildBatches)) ==
             Product(join, leftBatch[leftPos..], Flatten(buildBatches));
      currentLeft := leftBatch[leftPos];
      leftPos := leftPos + 1;
      batchIt, rowIdx := 0, 0;
    }

    /** Joins the left rows of the current batch until they are used up or the window is full. */
    method JoinLeftRows(batch: RowBatch, base: nat, max: nat) returns (returned: nat, ghost out: seq<Row>)
      requires Valid() && 0 < max && base + max <= batch.rows.Length
      modifies this`batchIt, this`rowIdx, this`leftPos, this`currentLeft, batch.rows
      ensures Valid() && |out| == returned <= max
      ensures returned < max ==> batchIt == |buildBatches| && leftPos == |leftBatch|
      ensures Written(batch.rows, base, out)
      ensures forall k :: 0 <= k < batch.rows.Length && !(base <= k < base + max) ==>
                batch.rows[k] == old(batch.rows[k])
      ensures [] + old(BatchRemaining()) == out + BatchRemaining()
    {
      returned, out := JoinCurrent(batch, base, max, 0, []);
      while returned < max && leftPos < |leftBatch|
        invariant Valid() && |out| == returned <= max && Written(batch.rows, base, out)
        invariant returned < max ==> batchIt == |buildBatches|
        invariant forall k :: 0 <= k < batch.rows.Length && !(base <= k < base + max) ==>
                    batch.rows[k] == old(batch.rows[k])
        invariant [] + old(BatchRemaining()) == out + BatchRemaining()
        decreases |leftBatch| - leftPos
      {
        NextLeftRow();
        returned, out := JoinCurrent(batch, base, max, returned, out);
      }
    }

    /** The same behind the committed rows, and commits what has been written. */
    method ProcessLeftChildBatch(batch: RowBatch, max: nat) returns (returned: nat, ghost out: seq<Row>)
      requires Valid() && 0 < max && batch.numRows + max <= batch.rows.Length
      modifies this`batchIt, this`rowIdx, this`leftPos, this`currentLeft, batch`numRows, batch.rows
      ensures Valid() && |out| == returned <= max && batch.numRows == old(batch.numRows) + returned
      ensures returned < max ==> batchIt == |buildBatches| && leftPos == |leftBatch|
      ensures Written(batch.rows, old(batch.numRows), out)
      ensures forall k :: 0 <= k < batch.rows.Length && !(old(batch.numRows) <= k < old(batch.numRows) + max) ==>
                            batch.rows[k] == old(batch.rows[k])
      ensures old(BatchRemaining()) == out + BatchRemaining()
    {
      returned, out := JoinLeftRows(batch, batch.numRows, max);
      batch.numRows := batch.numRows + returned;
    }

    /** The room that is left: in the batch, and before the limit. */
    function MaxAddedRows(batch: RowBatch): int
      reads this, batch
    {
      var room := batch.rows.Length - batch.numRows;
      if limit != NO_LIMIT && limit - numReturned < room then limit - numReturned else room
    }

    /** Continues the current left batch as far as there is room, and counts the rows. */
    method Fill(batch: RowBatch) returns (ghost out: seq<Row>)
      requires Valid() && batch.numRows <= batch.rows.Length && 0 < MaxAddedRows(batch)
      modifies this`batchIt, this`rowIdx, this`leftPos, this`currentLeft, this`numReturned, batch`numRows, batch.rows
      ensures Valid() && |out| <= old(MaxAddedRows(batch)) &&
              (|out| < old(MaxAddedRows(batch)) ==> batchIt == |buildBatches| && leftPos == |leftBatch|)
      ensures batch.numRows == old(batch.numRows) + |out| <= batch.rows.Length &&
              numReturned == old(numReturned) + |out|
      ensures batch.Contents() == old(batch.Contents()) + out
      ensures old(BatchRemaining()) == out + BatchRemaining()
    {
      ghost var rows := batch.Contents();
      var returned;
      returned, out := ProcessLeftChildBatch(batch, MaxAddedRows(batch));
      numReturned := numReturned + returned;
      Committed(batch, rows, out);
    }

    /** Fill, seen from the whole input. */
    method Continue(batch: RowBatch) returns (ghost out: seq<Row>)
      requires Valid() && !eos && batch.numRows <= batch.rows.Length && 0 < MaxAddedRows(batch)
      modifies this`batchIt, this`rowIdx, this`leftPos, this`currentLeft, this`numReturned, batch`numRows, batch.rows
      ensures Valid() && |out| <= old(MaxAddedRows(batch)) &&
              (|out| < old(MaxAddedRows(batch)) ==> batchIt == |buildBatches| && leftPos == |leftBatch|)
      ensures batch.numRows == old(batch.numRows) + |out| <= batch.rows.Length &&
              numReturned == old(numReturned) + |out|
      ensures batch.Contents() == old(batch.Contents()) + out
      ensures old(Remaining()) == out + Remaining()
    {
      ghost var later := Product(join, Flatten(leftInput), Flatten(buildBatches));
      ghost var all := BatchRemaining();
      out := Fill(batch);
      ghost var rest := BatchRemaining();
      assert all + later == out + rest + later;
      Regroup(out, rest, later);
    }

    /** Gives up the rows of a left batch that is done. */
    method EmptyBatch()
      requires Valid() && leftPos == |leftBatch|
      modifies this`leftBatch, this`leftPos
      ensures Valid() && leftBatch == [] && leftPos == 0 && BatchRemaining() == old(BatchRemaining())
    {
      leftBatch, leftPos := [], 0;
    }

    /** Fetches the next left batch, or notices that there is none. */
    method NextLeftBatch()
      requires Valid() && !eos && batchIt == |buildBatches| && leftPos == 0 && leftBatch == []
      modifies this`leftBatch, this`leftInput, this`leftEos, this`eos
      ensures Valid() && Remaining() == old(Remaining())
      ensures if old(leftEos) then eos && leftInput == old(leftInput) else !eos && |leftInput| < |old(leftInput)|
    {
      if leftEos {
        eos := true;
      } else {
        ProductConcat(join, leftInput[0], Flatten(leftInput[1..]), Flatten(buildBatches));
        leftBatch, leftInput := leftInput[0], leftInput[1..];
        leftEos := leftInput == [];
        assert leftBatch[0..] == leftBatch;
      }
    }

    /** Leaves a left batch that is done. */
    method Advance(crowded: bool) returns (stop: bool, done: bool)
      requires Valid() && !eos && batchIt == |buildBatches| && leftPos == |leftBatch|
      modifies this`leftBatch, this`leftPos, this`leftInput, this`leftEos, this`eos
      ensures Valid() && Remaining() == old(Remaining())
      ensures done == eos && stop == (crowded || eos)
      ensures !stop ==> |leftInput| < |old(leftInput)|
    {
      EmptyBatch();
      if crowded {
        return true, false;
      }
      NextLeftBatch();
      return eos, eos;
    }

    /** One round of the loop of GetNext: `stop` says that the loop is left. */
    method Round(batch: RowBatch, crowded: bool) returns (stop: bool, done: bool, ghost out: seq<Row>)
      requires Valid() && batch.numRows < batch.rows.Length && !ReachedLimit() && !eos
      modifies this`batchIt, this`rowIdx, this`leftPos, this`currentLeft, this`numReturned, this`leftBatch,
               this`leftInput,
               this`leftEos, this`eos, batch`numRows, batch.rows
      ensures Valid() && old(Remaining()) == out + Remaining()
      ensures batch.numRows <= batch.rows.Length && batch.Contents() == old(batch.Contents()) + out
      ensures numReturned == old(numReturned) + |out| && (limit != NO_LIMIT ==> numReturned <= limit)
      ensures done ==> stop && (ReachedLimit() || eos)
      ensures stop && !done ==> batch.numRows == batch.rows.Length || crowded
      ensures !stop ==> batch.numRows < batch.rows.Length && !ReachedLimit() && !eos && |leftInput| < |old(leftInput)|
    {
      out := Continue(batch);
      if ReachedLimit() || batch.IsFull() {
        return true, ReachedLimit(), out;
      }
      stop, done := Advance(crowded);
    }

    /** Round, with what remains kept folded. */
    method RoundFrom(batch: RowBatch, crowded: bool, ghost all: seq<Row>)
      returns (stop: bool, done: bool, ghost out: seq<Row>, ghost rest: seq<Row>)
      requires Remains(all) && batch.numRows < batch.rows.Length && !ReachedLimit() && !eos
      modifies this`batchIt, this`rowIdx, this`leftPos, this`currentLeft, this`numReturned, this`leftBatch,
               this`leftInput,
               this`leftEos, this`eos, batch`numRows, batch.rows
      ensures Remains(rest) && all == out + rest
      ensures batch.numRows <= batch.rows.Length && batch.Contents() == old(batch.Contents()) + out
      ensures numReturned == old(numReturned) + |out| && (limit != NO_LIMIT ==> numReturned <= limit)
      ensures done ==> stop && (ReachedLimit() || rest == [])
      ensures stop && !done ==> batch.numRows == batch.rows.Length || crowded
      ensures !stop ==> batch.numRows < batch.rows.Length && !ReachedLimit() && !eos && |leftInput| < |old(leftInput)|
    {
      assert Unfold(true);
      stop, done, out := Round(batch, crowded);
      rest := Remaining();
    }

    /** The loop of GetNext. */
    method Rounds(batch: RowBatch, crowded: nat -> bool, ghost all: seq<Row>)
      returns (done: bool, ghost out: seq<Row>, ghost rest: seq<Row>)
      requires Remains(all) && batch.numRows < batch.rows.Length && !ReachedLimit() && !eos
      modifies this`batchIt, this`rowIdx, this`leftPos, this`currentLeft, this`numReturned, this`leftBatch,
               this`leftInput,
               this`leftEos, this`eos, batch`numRows, batch.rows
      ensures batch.numRows <= batch.rows.Length && batch.Contents() == old(batch.Contents()) + out
      ensures Remains(rest) && all == out + rest
      ensures numReturned == old(numReturned) + |out| && (limit != NO_LIMIT ==> numReturned <= limit)
      ensures done ==> ReachedLimit() || rest == []
      ensures !done ==> batch.numRows == batch.rows.Length || exists n :: crowded(n)
    {
      out, rest, done := [], all, false;
      var stop := false;
      while !stop
        invariant Remains(rest) && all == out + rest
        invariant batch.numRows <= batch.rows.Length && batch.Contents() == old(batch.Contents()) + out
        invariant numReturned == old(numReturned) + |out| && (limit != NO_LIMIT ==> numReturned <= limit)
        invariant done ==> stop && (ReachedLimit() || rest == [])
        invariant stop && !done ==> batch.numRows == batch.rows.Length || exists n :: crowded(n)
        invariant !stop ==> batch.numRows < batch.rows.Length && !ReachedLimit() && !eos
        decreases !stop, |leftInput|
      {
        ghost var before, more := rest, [];
        stop, done, more, rest := RoundFrom(batch, crowded(|leftInput|), rest);
        out := Extended(all, old(batch.Contents()), out, more, before, rest, batch);
      }
    }

    /** Delivers the next rows.  The batch must have room, and `done` says that nothing will follow;
        `crowded` says after which left batches the output has accumulated too much memory. */
    method GetNext(batch: RowBatch, crowded: nat -> bool) returns (done: bool, ghost out: seq<Row>)
      requires Valid() && batch.numRows < batch.rows.Length
      modifies this, batch, batch.rows
      ensures Valid() && buildBatches == old(buildBatches)
      ensures old(Remaining()) == out + Remaining()
      ensures batch.numRows <= batch.rows.Length && batch.Contents() == old(batch.Contents()) + out
      ensures numReturned == old(numReturned) + |out| && (limit != NO_LIMIT && out != [] ==> numReturned <= limit)
      ensures done ==> ReachedLimit() || Remaining() == []
      ensures !done ==> batch.numRows == batch.rows.Length || exists n :: crowded(n)
    {
      if ReachedLimit() || eos {
        return true, [];
      }
      ghost var rest;
      done, out, rest := Rounds(batch, crowded, Remaining());
      assert Unfold(true);
    }

    /** GetNext into a new batch. */
    method NextRows(call: Call, ghost all: seq<Row>) returns (rows: seq<Row>, done: bool, ghost rest: seq<Row>)
      requires Remains(all) && 0 < call.capacity
      modifies this
      ensures Remains(rest) && all == rows + rest
      ensures numReturned == old(numReturned) + |rows| && (limit != NO_LIMIT && rows != [] ==> numReturned <= limit)
      ensures done ==> ReachedLimit() || rest == []
    {
      assert Unfold(true);
      var batch := new RowBatch(call.capacity);
      ghost var out;
      done, out := GetNext(batch, call.crowded);
      rows, rest := batch.rows[..batch.numRows], Remaining();
      assert [] + out == out;
    }

    /** A whole run, with an output batch of any capacity for each call, until nothing will follow. */
    method Run(calls: seq<Call>, ghost all: seq<Row>) returns (rows: seq<Row>, done: bool)
      requires Remains(all) && numReturned == 0 && forall i :: 0 <= i < |calls| ==> 0 < calls[i].capacity
      modifies this
      ensures rows <= Limited(limit, all)
      ensures done ==> rows == Limited(limit, all)
    {
      rows, done := [], false;
      ghost var rest := all;
      for i := 0 to |calls|
        invariant Remains(rest) && all == rows + rest && numReturned == |rows|
        invariant limit == NO_LIMIT || |rows| <= limit || rows == []
        invariant !done
      {
        var more;
        more, done, rest := NextRows(calls[i], rest);
        Regroup(rows, more, rest);
        rows := rows + more;
        if done {
          break;
        }
      }
    }

    /** From a new node to the rows it delivers. */
    method Execute(right: seq<seq<Row>>, calls: seq<Call>) returns (rows: seq<Row>, done: bool)
      requires buildBatches == [] && leftInput != [] && numReturned == 0
      requires forall i :: 0 <= i < |calls| ==> 0 < calls[i].capacity
      modifies this
      ensures rows <= Limited(limit, Product(join, Flatten(old(leftInput)), Flatten(right)))
      ensures done ==> rows == Limited(limit, Product(join, Flatten(old(leftInput)), Flatten(right)))
    {
      ConstructBuildSide(right);
      Open();
      rows, done := Run(calls, Remaining());
    }

  }
}
