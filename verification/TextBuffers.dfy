/** A text that comes in several buffers: the state that be/src/exec/delimited-text-parser.cc carries from
    one call to the next, lines 114-122 and 137-185.

    A column that spans two buffers is put together by the scanner, so only its place in the row
    matters here, not its location.
 */
module TextBuffers {
  import opened Bytes
  import opened TextFormat
  import opened TextBatches

  function Shifted(off: nat, ends: seq<nat>): (r: seq<nat>)
    ensures |r| == |ends| && forall i :: 0 <= i < |r| ==> r[i] == ends[i] + off
  {
    seq(|ends|, i requires 0 <= i < |ends| => ends[i] + off)
  }

  // ----- the first buffer, as a part of the whole -----

  /** The parse with more characters behind its buffer: offsets count what remains. */
  function Longer(p: Parse, extra: nat): Parse {
    p.(rowDelimOffset := if p.rowDelimOffset == -1 then -1 else p.rowDelimOffset + extra)
  }

  lemma ConsumeLonger(f: Format, s: Schema, p: Parse, c: byte, remaining: nat, extra: nat)
    requires -1 <= p.rowDelimOffset && 0 < remaining
    ensures Consume(f, s, Longer(p, extra), c, remaining + extra) == Longer(Consume(f, s, p, c, remaining), extra)
    ensures -1 <= Consume(f, s, p, c, remaining).rowDelimOffset
  {
  }

  lemma NextLonger(f: Format, s: Schema, a: seq<byte>, b: seq<byte>, p: Parse)
    requires p.pos < |a| && -1 <= p.rowDelimOffset
    ensures Next(f, s, a + b, Longer(p, |b|)) == Longer(Next(f, s, a, p), |b|) && -1 <= Next(f, s, a, p).rowDelimOffset
  {
    ConsumeLonger(f, s, p, a[p.pos], |a| - p.pos, |b|);
  }

  /** The loop over the whole goes through the state of the loop over the first part. */
  lemma {:induction false} ThroughFirst(f: Format, s: Schema, a: seq<byte>, b: seq<byte>, p: Parse)
    requires p.pos <= |a| && -1 <= p.rowDelimOffset
    ensures var r := Scan(f, s, a, UNBOUNDED, p).parse;
            && r.pos == |a| && -1 <= r.rowDelimOffset
            && Scan(f, s, a + b, UNBOUNDED, Longer(p, |b|)) == Scan(f, s, a + b, UNBOUNDED, Longer(r, |b|))
    decreases |a| - p.pos
  {
    if p.pos == |a| {
      assert Scan(f, s, a, UNBOUNDED, p).parse == p;
    } else {
      var q := Next(f, s, a, p);
      NextLonger(f, s, a, b, p);
      ScanNext(f, s, a, UNBOUNDED, p);
      ScanNext(f, s, a + b, UNBOUNDED, Longer(p, |b|));
      ThroughFirst(f, s, a, b, q);
    }
  }

  // ----- the second buffer -----

  /** w, in the whole, is like r, in the second part, after base in the first part: the same place in the row
      and the same flags.  An offset that can no longer be met counts as none. */
  ghost predicate Alike(off: nat, base: Parse, w: Parse, r: Parse, remaining: int) {
    && w.pos == r.pos + off && w.columnIdx == r.columnIdx
    && w.hasEscape == r.hasEscape && w.lastIsEscape == r.lastIsEscape
    && (w.rowDelimOffset == r.rowDelimOffset || (w.rowDelimOffset > remaining && r.rowDelimOffset == -1))
    && w.numTuples == base.numTuples + r.numTuples && |w.fields| == |base.fields| + |r.fields|
    && w.rowEnds == base.rowEnds + Shifted(off, r.rowEnds)
  }

  lemma EndRowAlike(s: Schema, off: nat, base: Parse, w: Parse, r: Parse, remaining: int)
    requires Alike(off, base, w, r, remaining)
    ensures Alike(off, base, EndRow(s, true, w), EndRow(s, true, r), remaining)
  {
    assert Shifted(off, r.rowEnds + [r.pos]) == Shifted(off, r.rowEnds) + [w.pos];
    assert base.rowEnds + Shifted(off, r.rowEnds) + [w.pos] == base.rowEnds + (Shifted(off, r.rowEnds) + [w.pos]);
  }

  lemma ConsumeAlike(f: Format, s: Schema, off: nat, base: Parse, w: Parse, r: Parse, c: byte, remaining: nat)
    requires Alike(off, base, w, r, remaining) && 0 < remaining
    ensures var w', r' := Consume(f, s, w, c, remaining), Consume(f, s, r, c, remaining);
            Alike(off, base, w'.(pos := w.pos + 1), r'.(pos := r.pos + 1), remaining - 1)
  {
    EndRowAlike(s, off, base, Escape(f, w, c), Escape(f, r, c), remaining);
  }

  lemma {:induction false} ScanAlike(f: Format, s: Schema, a: seq<byte>, b: seq<byte>, base: Parse, w: Parse, r: Parse)
    requires r.pos <= |b| && Alike(|a|, base, w, r, |b| - r.pos)
    ensures Alike(|a|, base, Scan(f, s, a + b, UNBOUNDED, w).parse, Scan(f, s, b, UNBOUNDED, r).parse, 0)
    decreases |b| - r.pos
  {
    if r.pos == |b| {
      assert Scan(f, s, b, UNBOUNDED, r).parse == r && Scan(f, s, a + b, UNBOUNDED, w).parse == w;
    } else {
      ConsumeAlike(f, s, |a|, base, w, r, b[r.pos], |b| - r.pos);
      ScanNext(f, s, a + b, UNBOUNDED, w);
      ScanNext(f, s, b, UNBOUNDED, r);
      ScanAlike(f, s, a, b, base, Next(f, s, a + b, w), Next(f, s, b, r));
    }
  }

  /** What the next call starts from: the parser's fields, a new buffer and empty arrays. */
  function NextBuffer(p: Parse): Parse {
    p.(pos := 0, numTuples := 0, fields := [], rowEnds := [])
  }

  /** Two buffers are parsed as the one they make up: the rows, their ends, the number of fields and the state that
      is carried on are the same, wherever the cut is: in a column, behind an escape character, inside '\r\n'. */
  lemma CutIsInvisible(f: Format, s: Schema, a: seq<byte>, b: seq<byte>, p: Parse)
    requires f.tupleDelim != NUL && p.pos == 0
    ensures var first := ScalarParse(f, s, a, UNBOUNDED, p);
            var second := ScalarParse(f, s, b, UNBOUNDED, NextBuffer(first));
            var whole := ScalarParse(f, s, a + b, UNBOUNDED, p);
            && whole.numTuples == first.numTuples + second.numTuples
            && whole.rowEnds == first.rowEnds + Shifted(|a|, second.rowEnds)
            && |whole.fields| == |first.fields| + |second.fields|
            && whole.columnIdx == second.columnIdx
            && whole.hasEscape == second.hasEscape && whole.lastIsEscape == second.lastIsEscape
            && (whole.rowDelimOffset == 0 <==> second.rowDelimOffset == 0)
  {
    var p1 := Enter(a, p);
    assert Enter(a + b, p) == Longer(p1, |b|);
    ThroughFirst(f, s, a, b, p1);
    var first := Scan(f, s, a, UNBOUNDED, p1).parse;
    ScanAlike(f, s, a, b, first, Longer(first, |b|), Enter(b, NextBuffer(first)));
  }
}
