/** A parse that is cut into batches: be/src/exec/delimited-text-parser.cc, lines 114-122
    and 171-177, and the size of the arrays it fills, be/src/exec/hdfs-text-scanner.cc,
    lines 341-345.
 */
module TextBatches {
  import opened Bytes
  import opened TextFormat

  /** No batch size: numTuples never equals it. */
  const UNBOUNDED := -1

  /** One call with fresh output arrays, as the scanners make it. */
  function Batch(f: Format, s: Schema, buf: seq<byte>, maxTuples: int, p: Parse): Parse {
    ScalarParse(f, s, buf, maxTuples, p.(numTuples := 0, fields := [], rowEnds := []))
  }

  /** The calls of a scanner on one buffer, each resuming where the last one stopped, until
      the buffer is used up; their outputs are concatenated. */
  function Batches(f: Format, s: Schema, buf: seq<byte>, sizes: seq<int>, p: Parse): Parse {
    Repeated((q, size) => NextBatch(f, s, buf, size, q), |buf|, sizes, p)
  }

  /** One more call, its outputs behind those before. */
  function NextBatch(f: Format, s: Schema, buf: seq<byte>, size: int, p: Parse): Parse {
    After(p.numTuples, p.fields, p.rowEnds, Batch(f, s, buf, size, p))
  }

  function Repeated(next: (Parse, int) -> Parse, len: nat, sizes: seq<int>, p: Parse): Parse
    decreases |sizes|
  {
    if sizes == [] || p.pos >= len then p else Repeated(next, len, sizes[1..], next(p, sizes[0]))
  }

  // ----- outputs and counters only accumulate -----

  /** p with other outputs in front of its own. */
  function After(tuples: nat, fields: seq<FieldLocation>, rowEnds: seq<nat>, p: Parse): Parse {
    p.(numTuples := tuples + p.numTuples, fields := fields + p.fields, rowEnds := rowEnds + p.rowEnds)
  }

  lemma KeepAfter(s: Schema, columnIdx: nat, before: seq<FieldLocation>, fields: seq<FieldLocation>, l: FieldLocation)
    ensures Keep(s, columnIdx, before + fields, l) == before + Keep(s, columnIdx, fields, l)
  {
    assert before + fields + [l] == before + (fields + [l]);
  }

  lemma AddAfter(s: Schema, p: Parse, len: int, tuples: nat, fields: seq<FieldLocation>, rowEnds: seq<nat>)
    ensures AddColumn(s, true, After(tuples, fields, rowEnds, p), len) ==
            After(tuples, fields, rowEnds, AddColumn(s, true, p, len))
  {
    KeepAfter(s, p.columnIdx, fields, p.fields, Field(p.columnStart, if p.hasEscape then -len else len));
  }

  lemma FillAfter(s: Schema, p: Parse, tuples: nat, fields: seq<FieldLocation>, rowEnds: seq<nat>)
    ensures FillColumns(s, After(tuples, fields, rowEnds, p)) == After(tuples, fields, rowEnds, FillColumns(s, p))
  {
    assert fields + p.fields + MissingFrom(s, p.columnIdx) == fields + (p.fields + MissingFrom(s, p.columnIdx));
  }

  lemma EndRowAfter(s: Schema, p: Parse, tuples: nat, fields: seq<FieldLocation>, rowEnds: seq<nat>)
    ensures EndRow(s, true, After(tuples, fields, rowEnds, p)) == After(tuples, fields, rowEnds, EndRow(s, true, p))
  {
    AddAfter(s, p, p.pos - p.columnStart, tuples, fields, rowEnds);
    FillAfter(s, AddColumn(s, true, p, p.pos - p.columnStart), tuples, fields, rowEnds);
    assert rowEnds + p.rowEnds + [p.pos] == rowEnds + (p.rowEnds + [p.pos]);
  }

  lemma ConsumeAfter(f: Format, s: Schema, p: Parse, c: byte, remaining: int,
                     tuples: nat, fields: seq<FieldLocation>, rowEnds: seq<nat>)
    ensures Consume(f, s, After(tuples, fields, rowEnds, p), c, remaining) ==
            After(tuples, fields, rowEnds, Consume(f, s, p, c, remaining))
  {
    var q := Escape(f, p, c);
    assert Escape(f, After(tuples, fields, rowEnds, p), c) == After(tuples, fields, rowEnds, q);
    EndRowAfter(s, q, tuples, fields, rowEnds);
    AddAfter(s, q, q.pos - q.columnStart, tuples, fields, rowEnds);
  }

  lemma NextAfter(f: Format, s: Schema, buf: seq<byte>, p: Parse,
                  tuples: nat, fields: seq<FieldLocation>, rowEnds: seq<nat>)
    requires p.pos < |buf|
    ensures Next(f, s, buf, After(tuples, fields, rowEnds, p)) == After(tuples, fields, rowEnds, Next(f, s, buf, p))
  {
    ConsumeAfter(f, s, p, buf[p.pos], |buf| - p.pos, tuples, fields, rowEnds);
  }

  lemma {:induction false} ScanAfter(f: Format, s: Schema, buf: seq<byte>, p: Parse,
                                     tuples: nat, fields: seq<FieldLocation>, rowEnds: seq<nat>)
    ensures Scan(f, s, buf, UNBOUNDED, After(tuples, fields, rowEnds, p)) ==
            Stop(After(tuples, fields, rowEnds, Scan(f, s, buf, UNBOUNDED, p).parse), false)
    decreases |buf| - p.pos
  {
    if p.pos >= |buf| {
    } else {
      NextAfter(f, s, buf, p, tuples, fields, rowEnds);
      ScanNext(f, s, buf, UNBOUNDED, p);
      ScanNext(f, s, buf, UNBOUNDED, After(tuples, fields, rowEnds, p));
      ScanAfter(f, s, buf, Next(f, s, buf, p), tuples, fields, rowEnds);
    }
  }

  // ----- a full batch stops where the next call can take over -----

  lemma FullAtRowStart(f: Format, s: Schema, buf: seq<byte>, maxTuples: int, p: Parse)
    requires p.pos < |buf| && p.numTuples != maxTuples && EndsRow(f, p, buf[p.pos])
    requires Consume(f, s, p, buf[p.pos], |buf| - p.pos).numTuples == maxTuples
    ensures var q := Next(f, s, buf, p);
            var r := Scan(f, s, buf, maxTuples, p);
            && r.full && r.parse.pos == p.pos + 1 && Enter(buf, r.parse) == q
            && (q.pos == |buf| ==> r.parse == q)
  {
    assert !SkipsLf(p, |buf| - p.pos, buf[p.pos]);
  }

  /** Stopping at a full batch and starting a new call loses nothing. */
  lemma {:induction false} ScanResumes(f: Format, s: Schema, buf: seq<byte>, maxTuples: int, p: Parse)
    requires p.pos <= |buf| && p.numTuples != maxTuples
    ensures var r := Scan(f, s, buf, maxTuples, p);
            && p.pos <= r.parse.pos <= |buf| && (!r.full ==> r.parse.pos == |buf|) &&
            (p.pos < |buf| ==> p.pos < r.parse.pos)
            && (r.full && r.parse.pos == |buf| ==> Enter(buf, r.parse) == r.parse)
            && Scan(f, s, buf, UNBOUNDED, p).parse ==
               if r.full then Scan(f, s, buf, UNBOUNDED, Enter(buf, r.parse)).parse else r.parse
    decreases |buf| - p.pos
  {
    if p.pos >= |buf| {
    } else {
      var q := Next(f, s, buf, p);
      ScanNext(f, s, buf, UNBOUNDED, p);
      if EndsRow(f, p, buf[p.pos]) && q.numTuples == maxTuples {
        FullAtRowStart(f, s, buf, maxTuples, p);
      } else {
        ScanNext(f, s, buf, maxTuples, p);
        ScanResumes(f, s, buf, maxTuples, q);
      }
    }
  }

  /** One unbounded call. */
  function Whole(f: Format, s: Schema, buf: seq<byte>, p: Parse): Parse {
    Scan(f, s, buf, UNBOUNDED, Enter(buf, p)).parse
  }

  lemma BatchResumes(f: Format, s: Schema, buf: seq<byte>, size: int, p: Parse)
    requires f.tupleDelim != NUL && size != 0 && p.pos < |buf|
    ensures var q := After(p.numTuples, p.fields, p.rowEnds, Batch(f, s, buf, size, p));
            && p.pos < q.pos <= |buf|
            && (q.pos < |buf| ==> Whole(f, s, buf, q) == Whole(f, s, buf, p))
            && (q.pos == |buf| ==> q == Whole(f, s, buf, p))
  {
    var cleared := Enter(buf, p.(numTuples := 0, fields := [], rowEnds := []));
    var r := Scan(f, s, buf, size, cleared);
    assert Batch(f, s, buf, size, p) == r.parse;
    ScanResumes(f, s, buf, size, cleared);
    WholeAfter(f, s, buf, p, cleared);
    if r.full {
      StoppedAfter(f, s, buf, p, r.parse);
    }
  }

  lemma WholeAfter(f: Format, s: Schema, buf: seq<byte>, p: Parse, cleared: Parse)
    requires cleared == Enter(buf, p.(numTuples := 0, fields := [], rowEnds := []))
    ensures Whole(f, s, buf, p) == After(p.numTuples, p.fields, p.rowEnds, Scan(f, s, buf, UNBOUNDED, cleared).parse)
  {
    assert Enter(buf, p) == After(p.numTuples, p.fields, p.rowEnds, cleared);
    ScanAfter(f, s, buf, cleared, p.numTuples, p.fields, p.rowEnds);
  }

  lemma StoppedAfter(f: Format, s: Schema, buf: seq<byte>, p: Parse, r: Parse)
    requires r.pos <= |buf|
    ensures var q := After(p.numTuples, p.fields, p.rowEnds, r);
            && After(p.numTuples, p.fields, p.rowEnds, Scan(f, s, buf, UNBOUNDED, Enter(buf, r)).parse) ==
            Whole(f, s, buf, q)
            && (r.pos == |buf| && Enter(buf, r) == r ==> Scan(f, s, buf, UNBOUNDED, Enter(buf, r)).parse == r)
  {
    var q := After(p.numTuples, p.fields, p.rowEnds, r);
    assert Enter(buf, q) == After(p.numTuples, p.fields, p.rowEnds, Enter(buf, r));
    ScanAfter(f, s, buf, Enter(buf, r), p.numTuples, p.fields, p.rowEnds);
  }

  /** A call that stops at q stays on the way of the unbounded call from p, and makes progress. */
  ghost predicate OnTheWay(whole: Parse -> Parse, len: nat, p: Parse, q: Parse) {
    p.pos < q.pos <= len && if q.pos < len then whole(q) == whole(p) else q == whole(p)
  }

  lemma {:induction false} RepeatedResumes(next: (Parse, int) -> Parse, whole: Parse -> Parse, len: nat,
                                           sizes: seq<int>, p: Parse)
    requires p.pos < len && (forall i :: 0 <= i < |sizes| ==> sizes[i] != 0)
    requires forall q: Parse, size :: q.pos < len && size != 0 ==> OnTheWay(whole, len, q, next(q, size))
    ensures var q := Repeated(next, len, sizes, p);
            && q.pos <= len && (len - p.pos <= |sizes| ==> q.pos == len)
            && if q.pos < len then whole(q) == whole(p) else q == whole(p)
    decreases |sizes|
  {
    if sizes == [] {
      assert Repeated(next, len, sizes, p) == p;
    } else {
      var q := next(p, sizes[0]);
      assert OnTheWay(whole, len, p, q);
      if q.pos < len {
        RepeatedResumes(next, whole, len, sizes[1..], q);
      } else {
        assert Repeated(next, len, sizes[1..], q) == q;
      }
    }
  }

  lemma BatchesResume(f: Format, s: Schema, buf: seq<byte>, sizes: seq<int>, p: Parse)
    requires f.tupleDelim != NUL && p.pos < |buf| && (forall i :: 0 <= i < |sizes| ==> sizes[i] != 0)
    ensures var q := Batches(f, s, buf, sizes, p);
            && q.pos <= |buf|
            && (|buf| - p.pos <= |sizes| ==> q.pos == |buf|)
            && (q.pos < |buf| ==> Whole(f, s, buf, q) == Whole(f, s, buf, p))
            && (q.pos == |buf| ==> q == Whole(f, s, buf, p))
  {
    var next, whole := (q: Parse, size: int) => NextBatch(f, s, buf, size, q), (q: Parse) => Whole(f, s, buf, q);
    forall q: Parse, size | q.pos < |buf| && size != 0 ensures OnTheWay(whole, |buf|, q, next(q, size)) {
      BatchResumes(f, s, buf, size, q);
    }
    RepeatedResumes(next, whole, |buf|, sizes, p);
  }

  /** However a buffer is cut into batches, the concatenated outputs and the final state are
      those of one unbounded call; as many calls as there are characters are enough. */
  lemma BatchingIsInvisible(f: Format, s: Schema, buf: seq<byte>, sizes: seq<int>, p: Parse)
    requires f.tupleDelim != NUL && p.pos < |buf| && (forall i :: 0 <= i < |sizes| ==> sizes[i] != 0)
    ensures |buf| - p.pos <= |sizes| ==> Batches(f, s, buf, sizes, p).pos == |buf|
    ensures Batches(f, s, buf, sizes, p).pos == |buf| ==>
              Batches(f, s, buf, sizes, p) == ScalarParse(f, s, buf, UNBOUNDED, p)
  {
    BatchesResume(f, s, buf, sizes, p);
  }

  // ----- the field array is large enough -----

  /** The materialized columns from a up to b. */
  function Materialized(s: Schema, a: nat, b: nat): nat
    decreases b
  {
    if b <= a then 0 else Materialized(s, a, b - 1) + (if Returned(s, b - 1) then 1 else 0)
  }

  function RowWidth(s: Schema): nat {
    Materialized(s, s.numPartitionKeys, |s.materialized|)
  }

  lemma {:induction false} MissingCount(s: Schema, columnIdx: nat)
    requires s.numPartitionKeys <= columnIdx
    ensures Materialized(s, s.numPartitionKeys, columnIdx) + |MissingFrom(s, columnIdx)| == RowWidth(s)
    decreases |s.materialized| - columnIdx
  {
    if columnIdx < |s.materialized| {
      MissingCount(s, columnIdx + 1);
    } else {
      BeyondSchema(s, columnIdx);
    }
  }

  lemma {:induction false} BeyondSchema(s: Schema, columnIdx: nat)
    requires |s.materialized| <= columnIdx
    ensures Materialized(s, s.numPartitionKeys, columnIdx) == RowWidth(s)
  {
    if |s.materialized| >= columnIdx {
    } else {
      BeyondSchema(s, columnIdx - 1);
    }
  }

  lemma {:induction false} WidthBound(s: Schema, columnIdx: nat)
    ensures Materialized(s, s.numPartitionKeys, columnIdx) <= RowWidth(s)
    decreases |s.materialized| - columnIdx
  {
    if columnIdx < |s.materialized| {
      WidthBound(s, columnIdx + 1);
    } else {
      BeyondSchema(s, columnIdx);
    }
  }

  /** k * width, by counting. */
  function Times(k: nat, width: nat): nat {
    if k == 0 then 0 else Times(k - 1, width) + width
  }

  lemma {:induction false} TimesProduct(k: nat, width: nat)
    ensures Times(k, width) == k * width
  {
    if k == 0 {
    } else {
      TimesProduct(k - 1, width);
    }
  }

  lemma {:induction false} TimesGrows(j: nat, k: nat, width: nat)
    requires j <= k
    ensures Times(j, width) <= Times(k, width)
  {
    if j >= k {
    } else {
      TimesGrows(j, k - 1, width);
    }
  }

  /** owed + |fields| counts full rows and the materialized columns of the row in progress. */
  predicate Counted(s: Schema, owed: nat, p: Parse) {
    && s.numPartitionKeys <= p.columnIdx
    && owed + |p.fields| == Times(p.numTuples, RowWidth(s)) + Materialized(s, s.numPartitionKeys, p.columnIdx)
  }

  lemma ConsumeCounted(f: Format, s: Schema, p: Parse, c: byte, remaining: int, owed: nat)
    requires Counted(s, owed, p)
    ensures Counted(s, owed, Consume(f, s, p, c, remaining))
    ensures EndsRow(f, p, c) && !SkipsLf(p, remaining, c) ==>
              Consume(f, s, p, c, remaining).columnIdx == s.numPartitionKeys
  {
    MissingCount(s, p.columnIdx + 1);
  }

  lemma {:induction false} ScanCounted(f: Format, s: Schema, buf: seq<byte>, maxTuples: int, p: Parse, owed: nat)
    requires Counted(s, owed, p) && p.numTuples < maxTuples
    ensures var r := Scan(f, s, buf, maxTuples, p);
            && Counted(s, owed, r.parse)
            && r.full == (r.parse.numTuples == maxTuples) && r.parse.numTuples <= maxTuples
            && (r.full ==> r.parse.columnIdx == s.numPartitionKeys)
    decreases |buf| - p.pos
  {
    if p.pos >= |buf| {
    } else {
      var q := Next(f, s, buf, p);
      ConsumeCounted(f, s, p, buf[p.pos], |buf| - p.pos, owed);
      if q.numTuples != maxTuples {
        ScanNext(f, s, buf, maxTuples, p);
        ScanCounted(f, s, buf, maxTuples, q, owed);
      }
    }
  }

  /** A call never writes more than maxTuples rows' worth of fields, however ragged the rows
      are and in whichever column it starts. */
  lemma FieldsFit(f: Format, s: Schema, buf: seq<byte>, maxTuples: nat, p: Parse)
    requires 0 < maxTuples && s.numPartitionKeys <= p.columnIdx && f.tupleDelim != NUL
    ensures |Batch(f, s, buf, maxTuples, p).fields| <= maxTuples * RowWidth(s)
    ensures Batch(f, s, buf, maxTuples, p).numTuples <= maxTuples
    ensures |Batch(f, s, buf, maxTuples, p).fields| + Materialized(s, s.numPartitionKeys, p.columnIdx) ==
            Batch(f, s, buf, maxTuples, p).numTuples * RowWidth(s)
            + Materialized(s, s.numPartitionKeys, Batch(f, s, buf, maxTuples, p).columnIdx)
  {
    var q := Enter(buf, p.(numTuples := 0, fields := [], rowEnds := []));
    ScanCounted(f, s, buf, maxTuples, q, Materialized(s, s.numPartitionKeys, p.columnIdx));
    var r := Scan(f, s, buf, maxTuples, q).parse;
    assert Batch(f, s, buf, maxTuples, p) == r;
    WidthBound(s, r.columnIdx);
    TimesProduct(maxTuples, RowWidth(s));
    TimesProduct(r.numTuples, RowWidth(s));
    if r.numTuples < maxTuples {
      TimesGrows(r.numTuples + 1, maxTuples, RowWidth(s));
    }
  }
}
