/** The vectorised parser: be/src/exec/delimited-text-parser.inline.h and
    be/src/exec/delimited-text-parser.cc.  Whatever mix of 16-character blocks and
    single characters it uses, it computes TextFormat.ScalarParse.
 */
module TextParser {
  import opened Bytes
  import opened Folding
  import opened TextFormat
  import opened SseMask

  /** The in/out arguments of a parse. */
  datatype Cursor = Cursor(pos: nat, columnStart: int, numTuples: nat,
                           fields: seq<FieldLocation>, rowEnds: seq<nat>)

  /** run is the scalar loop.  The trigger keeps the loop from being unfolded
      except where a proof mentions Unfold. */
  ghost predicate IsScan(run: Parse -> Stop, f: Format, s: Schema, buf: seq<byte>, maxTuples: int) {
    forall p {:trigger Unfold(p)} :: Unfold(p) ==> run(p) == Scan(f, s, buf, maxTuples, p)
  }

  // ----- one active delimiter, as the scalar loop sees it -----

  /** Position n carries the first active delimiter from p on. */
  predicate NextActive(f: Format, buf: seq<byte>, p: Parse, n: nat) {
    && p.pos <= n < |buf|
    && (forall i :: p.pos <= i < n && f.IsDelim(buf[i]) ==> EscapeAfter(f, buf, p.pos, i, p.lastIsEscape))
    && f.IsDelim(buf[n]) && !EscapeAfter(f, buf, p.pos, n, p.lastIsEscape)
  }

  /** p moved to the active delimiter at n, the escape flags brought up to date. */
  function At(f: Format, buf: seq<byte>, p: Parse, n: nat): Parse
    requires p.pos <= n <= |buf|
  {
    p.(pos := n, hasEscape := p.hasEscape || EscapeIn(f, buf, p.pos, n), lastIsEscape := false)
  }

  /** The row ends at p.pos, in front of a tuple delimiter with `left` characters left. */
  function RowEnded(s: Schema, p: Parse, c: byte, left: int): (q: Parse)
    ensures q.pos == p.pos + 1 && !q.hasEscape && q.lastIsEscape == p.lastIsEscape
  {
    EndRow(s, true, p).(rowDelimOffset := if c == CR then left - 1 else -1, pos := p.pos + 1)
  }

  /** The batch is full: a trailing '\r' is remembered for the next call. */
  function Full(p: Parse, left: int): Parse {
    if p.rowDelimOffset == left then p.(rowDelimOffset := 0) else p
  }

  lemma RunField(run: Parse -> Stop, f: Format, s: Schema, buf: seq<byte>, maxTuples: int, q: Parse)
    requires IsScan(run, f, s, buf, maxTuples)
    requires q.pos < |buf| && f.IsFieldDelim(buf[q.pos]) && !f.IsTupleDelim(buf[q.pos]) && buf[q.pos] != f.escapeChar
    requires !q.lastIsEscape
    ensures run(q) == run(AddColumn(s, true, q, q.pos - q.columnStart).(pos := q.pos + 1))
  {
    var r := AddColumn(s, true, q, q.pos - q.columnStart).(pos := q.pos + 1);
    assert Unfold(q) && Unfold(r);
    assert Escape(f, q, buf[q.pos]) == q;
  }

  /** A stretch without active delimiter. */
  lemma RunQuiet(run: Parse -> Stop, f: Format, s: Schema, buf: seq<byte>, maxTuples: int, p: Parse, n: nat)
    requires IsScan(run, f, s, buf, maxTuples) && p.pos <= n <= |buf|
    requires forall i :: p.pos <= i < n && f.IsDelim(buf[i]) ==> EscapeAfter(f, buf, p.pos, i, p.lastIsEscape)
    ensures run(p) == run(p.(pos := n, hasEscape := p.hasEscape || EscapeIn(f, buf, p.pos, n),
                             lastIsEscape := EscapeAfter(f, buf, p.pos, n, p.lastIsEscape)))
  {
    QuietStretch(f, s, buf, maxTuples, p, n);
    assert Unfold(p);
    assert Unfold(p.(pos := n, hasEscape := p.hasEscape || EscapeIn(f, buf, p.pos, n),
                     lastIsEscape := EscapeAfter(f, buf, p.pos, n, p.lastIsEscape)));
  }

  /** What the scalar loop does from an active tuple delimiter at q.pos on. */
  ghost function FromTuple(run: Parse -> Stop, s: Schema, buf: seq<byte>, maxTuples: int, q: Parse): Stop
    requires q.pos < |buf|
  {
    var left := |buf| - q.pos;
    var ended := RowEnded(s, q, buf[q.pos], left);
    if q.rowDelimOffset == left && buf[q.pos] == LF then
      run(q.(columnStart := q.columnStart + 1, rowDelimOffset := -1, pos := q.pos + 1))
    else if ended.numTuples == maxTuples then Stop(Full(ended, left - 1), true)
    else run(ended)
  }

  lemma RunTuple(run: Parse -> Stop, f: Format, s: Schema, buf: seq<byte>, maxTuples: int, q: Parse)
    requires IsScan(run, f, s, buf, maxTuples)
    requires q.pos < |buf| && f.IsTupleDelim(buf[q.pos]) && buf[q.pos] != f.escapeChar
    requires !q.lastIsEscape && q.numTuples != maxTuples
    ensures run(q) == FromTuple(run, s, buf, maxTuples, q)
  {
    var c, left := buf[q.pos], |buf| - q.pos;
    assert Escape(f, q, c) == q;
    assert Unfold(q);
    if q.rowDelimOffset == left && c == LF {
      var r := q.(columnStart := q.columnStart + 1, rowDelimOffset := -1, pos := q.pos + 1);
      assert Consume(f, s, q, c, left).(pos := q.pos + 1) == r;
      assert Unfold(r);
    } else {
      assert Consume(f, s, q, c, left).(pos := q.pos + 1) == RowEnded(s, q, c, left);
      assert Unfold(RowEnded(s, q, c, left));
    }
  }

  /** One character of the scalar loop. */
  lemma RunChar(run: Parse -> Stop, f: Format, s: Schema, buf: seq<byte>, maxTuples: int, p: Parse)
    requires IsScan(run, f, s, buf, maxTuples) && p.pos < |buf|
    ensures var q := Next(f, s, buf, p);
            run(p) == if EndsRow(f, p, buf[p.pos]) && q.numTuples == maxTuples then Stop(Full(q, |buf| - q.pos), true)
                      else run(q)
  {
    assert Unfold(p) && Unfold(Next(f, s, buf, p));
  }

  // ----- the search registers -----

  /** The characters the delimiter search register holds, in order. */
  function SearchChars(f: Format): seq<byte> {
    (if f.tupleDelim == NUL then [] else if f.tupleDelim == LF then [LF, CR] else [f.tupleDelim])
    + (if f.fieldDelim != NUL || f.itemDelim != NUL then [f.fieldDelim, f.itemDelim] else [])
  }

  /** A register loaded from the beginning of a zeroed array. */
  function Register(chars: seq<byte>): (reg: seq<byte>)
    requires |chars| <= WIDTH
    ensures |reg| == WIDTH && reg[..|chars|] == chars
    ensures forall i :: |chars| <= i < WIDTH ==> reg[i] == NUL
  {
    chars + seq(WIDTH - |chars|, _ => NUL)
  }

  /** A vectorizable format's delimiters are all found by one search. */
  lemma SearchesDelims(f: Format, c: byte)
    requires f.Vectorizable() && c != NUL
    ensures var reg := Register(SearchChars(f));
            c in reg[..ImplicitLength(reg)] <==> f.IsDelim(c)
  {
    var chars := SearchChars(f);
    var reg := Register(chars);
    var n := ImplicitLength(reg);
    assert forall i :: 0 <= i < |chars| ==> reg[i] == chars[i];
    assert reg[|chars|] == NUL;
    assert forall i :: n <= i < |chars| ==> chars[i] == NUL;
    assert f.IsDelim(c) <==> c in chars;
    assert c in chars ==> exists i :: 0 <= i < n && reg[i] == c;
  }

  lemma SearchesEscape(e: byte, c: byte)
    requires e != NUL
    ensures var reg := Register([e]);
            c in reg[..ImplicitLength(reg)] <==> c == e
  {
    var reg := Register([e]);
    assert reg[0] == [e][0];
    assert ImplicitLength(reg) == 1;
  }

  lemma {:induction false} EscapedIsEscapeAfter(f: Format, buf: seq<byte>, base: nat, escapes: Mask, initially: bool,
                                                i: nat)
    requires base + WIDTH <= |buf| && i <= WIDTH
    requires forall j :: 0 <= j < WIDTH ==> (escapes[j] <==> buf[base + j] == f.escapeChar)
    ensures Escaped(escapes, initially, i) == EscapeAfter(f, buf, base, base + i, initially)
  {
    if i == 0 {
    } else {
      EscapedIsEscapeAfter(f, buf, base, escapes, initially, i - 1);
    }
  }

  lemma {:induction false} NoEscapes(f: Format, buf: seq<byte>, from: nat, upTo: nat)
    requires NoNul(buf) && f.escapeChar == NUL && from <= upTo <= |buf|
    ensures !EscapeAfter(f, buf, from, upTo, false)
    ensures !EscapeIn(f, buf, from, upTo)
    decreases upTo
  {
    if from >= upTo {
    } else {
      NoEscapes(f, buf, from, upTo - 1);
    }
  }

  // ----- one block of sixteen characters -----

  /** delims holds the active delimiters of the block at base, from bit k on. */
  ghost predicate Pending(f: Format, buf: seq<byte>, base: nat, initially: bool, k: nat, delims: Mask) {
    && base + WIDTH <= |buf|
    && forall i :: 0 <= i < WIDTH ==>
         (delims[i] <==> k <= i && f.IsDelim(buf[base + i]) && !EscapeAfter(f, buf, base, base + i, initially))
  }

  /** escapes holds the escape characters of the block at base, if the format has any. */
  ghost predicate EscapesOf(f: Format, buf: seq<byte>, base: nat, escapes: Mask) {
    && base + WIDTH <= |buf|
    && forall i :: 0 <= i < WIDTH ==> (escapes[i] <==> f.escapeChar != NUL && buf[base + i] == f.escapeChar)
  }

  /** The scalar parse that has consumed k characters of the block at p.pos. */
  ghost function Within(f: Format, buf: seq<byte>, p: Parse, initially: bool, k: nat): Parse
    requires p.pos + k <= |buf|
  {
    p.(pos := p.pos + k, lastIsEscape := EscapeAfter(f, buf, p.pos, p.pos + k, initially))
  }

  lemma MaskFindsNext(f: Format, buf: seq<byte>, p: Parse, initially: bool, k: nat, delims: Mask, n: nat)
    requires Pending(f, buf, p.pos, initially, k, delims)
    requires k <= n < WIDTH && delims[n] && forall i :: 0 <= i < n ==> !delims[i]
    ensures NextActive(f, buf, Within(f, buf, p, initially, k), p.pos + n)
  {
    var q := Within(f, buf, p, initially, k);
    forall i | q.pos <= i <= p.pos + n
      ensures EscapeAfter(f, buf, q.pos, i, q.lastIsEscape) == EscapeAfter(f, buf, p.pos, i, initially)
    {
      EscapeAfterSplit(f, buf, p.pos, q.pos, i, initially);
    }
    forall i | q.pos <= i < p.pos + n && f.IsDelim(buf[i])
      ensures EscapeAfter(f, buf, q.pos, i, q.lastIsEscape)
    {
      assert !delims[i - p.pos];
    }
  }

  /** Between two active delimiters of the block at p.pos: k characters are consumed,
      and `goal` is what the scalar loop computes from there. */
  ghost predicate InBlock(run: Parse -> Stop, f: Format, buf: seq<byte>, initially: bool, p: Parse,
                          delims: Mask, k: nat, goal: Stop) {
    && Pending(f, buf, p.pos, initially, k, delims) && k <= WIDTH
    && p.lastIsEscape == EscapeAfter(f, buf, p.pos, p.pos + WIDTH, initially)
    && goal == run(Within(f, buf, p, initially, k))
  }

  predicate LowestBit(m: Mask, n: nat) {
    n < WIDTH && m[n] && forall i :: 0 <= i < n ==> !m[i]
  }

  /** The lowest bit of the mask is the delimiter at which the scalar loop acts next. */
  lemma ToDelim(run: Parse -> Stop, f: Format, s: Schema, buf: seq<byte>, maxTuples: int, initially: bool, p: Parse,
                delims: Mask, k: nat, goal: Stop, n: nat)
    requires IsScan(run, f, s, buf, maxTuples)
    requires InBlock(run, f, buf, initially, p, delims, k, goal) && LowestBit(delims, n)
    ensures k <= n && f.IsDelim(buf[p.pos + n])
    ensures goal == run(p.(pos := p.pos + n, hasEscape := p.hasEscape || EscapeIn(f, buf, p.pos + k, p.pos + n),
                           lastIsEscape := false))
  {
    var q := Within(f, buf, p, initially, k);
    MaskFindsNext(f, buf, p, initially, k, delims, n);
    assert Unfold(q) && Unfold(At(f, buf, q, p.pos + n));
    QuietStretch(f, s, buf, maxTuples, q, p.pos + n);
    assert At(f, buf, q, p.pos + n) ==
           p.(pos := p.pos + n, hasEscape := p.hasEscape || EscapeIn(f, buf, p.pos + k, p.pos + n),
              lastIsEscape := false);
  }

  lemma DelimIsNotEscape(f: Format, buf: seq<byte>, base: nat, initially: bool, k: nat, delims: Mask, escapes: Mask,
                         n: nat)
    requires f.Legal() && f.Vectorizable() && NoNul(buf)
    requires Pending(f, buf, base, initially, k, delims) && EscapesOf(f, buf, base, escapes) && LowestBit(delims, n)
    ensures k <= n && !escapes[n]
  {
  }

  /** Behind the delimiter at bit n, the block goes on with that bit cleared. */
  lemma PastDelim(run: Parse -> Stop, f: Format, buf: seq<byte>, initially: bool, p: Parse, p': Parse,
                  delims: Mask, k: nat, goal: Stop, n: nat)
    requires f.Legal() && f.Vectorizable() && NoNul(buf)
    requires InBlock(run, f, buf, initially, p, delims, k, goal) && LowestBit(delims, n)
    requires p'.pos == p.pos && p'.lastIsEscape == p.lastIsEscape
    requires goal == run(p'.(pos := p.pos + n + 1, lastIsEscape := false))
    ensures InBlock(run, f, buf, initially, p', And(delims, Not(Bitmask(n))), n + 1, goal)
  {
    assert !EscapeAfter(f, buf, p.pos, p.pos + n + 1, initially);
  }

  lemma MaskFindsNone(f: Format, buf: seq<byte>, p: Parse, initially: bool, k: nat, delims: Mask, i: nat)
    requires Pending(f, buf, p.pos, initially, k, delims) && !NonZero(delims) && k <= WIDTH
    requires p.pos + k <= i <= p.pos + WIDTH
    ensures var last := Within(f, buf, p, initially, k).lastIsEscape;
            && EscapeAfter(f, buf, p.pos + k, i, last) == EscapeAfter(f, buf, p.pos, i, initially)
            && (i < p.pos + WIDTH && f.IsDelim(buf[i]) ==> EscapeAfter(f, buf, p.pos + k, i, last))
  {
    EscapeAfterSplit(f, buf, p.pos, p.pos + k, i, initially);
    assert i < p.pos + WIDTH ==> !delims[i - p.pos];
  }

  /** No bit is left: the scalar loop reaches the end of the block. */
  lemma ToEnd(run: Parse -> Stop, f: Format, s: Schema, buf: seq<byte>, maxTuples: int, initially: bool, p: Parse,
              delims: Mask, k: nat, goal: Stop)
    requires IsScan(run, f, s, buf, maxTuples)
    requires InBlock(run, f, buf, initially, p, delims, k, goal) && !NonZero(delims)
    ensures goal ==
            run(p.(pos := p.pos + WIDTH, hasEscape := p.hasEscape || EscapeIn(f, buf, p.pos + k, p.pos + WIDTH)))
  {
    var q := Within(f, buf, p, initially, k);
    MaskFindsNone(f, buf, p, initially, k, delims, p.pos + WIDTH);
    forall i | q.pos <= i < p.pos + WIDTH && f.IsDelim(buf[i])
      ensures EscapeAfter(f, buf, q.pos, i, q.lastIsEscape)
    {
      MaskFindsNone(f, buf, p, initially, k, delims, i);
    }
    RunQuiet(run, f, s, buf, maxTuples, q, p.pos + WIDTH);
  }

  /** The tables that cut the escape mask down to the characters of one column:
      entry i of one keeps the bits from i on, of the other those up to i. */
  function LowMask(i: nat): Mask {
    seq(WIDTH, j => i <= j)
  }

  function HighMask(i: nat): Mask {
    seq(WIDTH, j => j <= i)
  }

  /** Masking the escape characters of bits last..n asks whether the stretch k..end has one;
      the delimiters at its two ends do not count. */
  lemma MaskedEscapes(f: Format, buf: seq<byte>, base: nat, escapes: Mask,
                      last: nat, k: nat, n: nat, end: nat)
    requires f.escapeChar != NUL && EscapesOf(f, buf, base, escapes)
    requires last < WIDTH && last <= k <= end <= n + 1 && n < WIDTH && k <= last + 1 && n <= end
    requires k == last + 1 ==> !escapes[last]
    requires n == end ==> !escapes[n]
    ensures NonZero(And(And(escapes, LowMask(last)), HighMask(n))) <==> EscapeIn(f, buf, base + k, base + end)
  {
    var m := And(And(escapes, LowMask(last)), HighMask(n));
    if NonZero(m) {
      var i :| 0 <= i < WIDTH && m[i];
      assert buf[base + i] == f.escapeChar;
    }
    if EscapeIn(f, buf, base + k, base + end) {
      var i :| base + k <= i < base + end && buf[i] == f.escapeChar;
      assert m[i - base];
    }
  }

  predicate RangeTables(low: seq<Mask>, high: seq<Mask>) {
    && |low| == |high| == WIDTH
    && (forall i :: 0 <= i < WIDTH ==> low[i] == LowMask(i))
    && (forall i :: 0 <= i < WIDTH ==> high[i] == HighMask(i))
  }

  method RangeMasks() returns (low: seq<Mask>, high: seq<Mask>)
    ensures RangeTables(low, high)
  {
    var lows, highs := new Mask[WIDTH](_ => ONES), new Mask[WIDTH](_ => ONES);
    assert ONES == LowMask(0) == HighMask(WIDTH - 1);
    for i := 1 to 16
      invariant forall k :: 0 <= k < i ==> lows[k] == LowMask(k)
      invariant highs[15] == ONES
    {
      lows[i] := ShiftUp(lows[i - 1]);
      assert ShiftUp(LowMask(i - 1)) == LowMask(i);
    }
    low := lows[..];
    for i := 15 downto 0
      invariant forall k :: i <= k < WIDTH ==> highs[k] == HighMask(k)
    {
      highs[i] := ShiftDown(highs[i + 1]);
      assert ShiftDown(HighMask(i + 1)) == HighMask(i);
    }
    high := highs[..];
  }

  /** The character at i is escaped, as a parser that toggles its way from the beginning sees it. */
  predicate Masked(f: Format, buf: seq<byte>, i: nat)
    requires i <= |buf|
  {
    f.escapeChar != NUL && EscapeAfter(f, buf, 0, i, false)
  }

  // ----- the parser -----

  class DelimitedTextParser {
    const format: Format
    const schema: Schema
    const delimSearch: seq<byte>
    const escapeSearch: seq<byte>
    const lowMask: seq<Mask>
    const highMask: seq<Mask>

    var columnIdx: nat
    var hasEscape: bool
    var lastIsEscape: bool
    var rowDelimOffset: int

    ghost predicate Valid() {
      && format.Legal()
      && delimSearch == Register(SearchChars(format))
      && (format.escapeChar != NUL ==> escapeSearch == Register([format.escapeChar]) && RangeTables(lowMask, highMask))
    }

    /** The parser's fields and the cursor as one value. */
    ghost function View(c: Cursor): Parse
      reads this
    {
      Parse(c.pos, c.columnStart, columnIdx, hasEscape, lastIsEscape, rowDelimOffset,
            c.numTuples, c.fields, c.rowEnds)
    }

    constructor (f: Format, s: Schema)
      requires f.Legal()
      ensures Valid() && format == f && schema == s
      ensures View(Cursor(0, 0, 0, [], [])) == Reset(s)
    {
      var search := new byte[WIDTH](_ => NUL);
      var escapes: seq<byte> := [];
      var low, high := seq(WIDTH, _ => ZERO), seq(WIDTH, _ => ZERO);
      if f.escapeChar != NUL {
        search[0] := f.escapeChar;
        escapes := search[..];
        low, high := RangeMasks();
      }
      var numDelims := 0;
      if f.tupleDelim != NUL {
        search[0] := f.tupleDelim;
        numDelims := 1;
        if f.tupleDelim == LF {
          search[1] := CR;
          numDelims := 2;
        }
      }
      if f.fieldDelim != NUL || f.itemDelim != NUL {
        search[numDelims] := f.fieldDelim;
        search[numDelims + 1] := f.itemDelim;
        numDelims := numDelims + 2;
      }
      format, schema := f, s;
      delimSearch, escapeSearch := search[..], escapes;
      lowMask, highMask := low, high;
      hasEscape, lastIsEscape, rowDelimOffset := false, false, -1;
      columnIdx := s.numPartitionKeys;
      assert search[..] == Register(SearchChars(f));
    }

    /** Called at the beginning of a scan range. */
    method ParserReset()
      modifies this
      ensures View(Cursor(0, 0, 0, [], [])) == Reset(schema)
    {
      hasEscape, lastIsEscape, rowDelimOffset := false, false, -1;
      columnIdx := schema.numPartitionKeys;
    }

    method AddColumn(escapes: bool, len: int, c: Cursor) returns (c': Cursor)
      modifies this`columnIdx, this`hasEscape
      ensures View(c') == TextFormat.AddColumn(schema, escapes, old(View(c)), len)
    {
      c' := c;
      if columnIdx < |schema.materialized| && schema.materialized[columnIdx] {
        c' := c'.(fields := c'.fields + [Field(c.columnStart, if escapes && hasEscape then -len else len)]);
      }
      if escapes {
        hasEscape := false;
      }
      c' := c'.(columnStart := c.columnStart + len + 1);
      columnIdx := columnIdx + 1;
    }

    method FillColumns(c: Cursor) returns (c': Cursor)
      modifies this`columnIdx
      ensures View(c') == TextFormat.FillColumns(schema, old(View(c)))
    {
      c' := c;
      while columnIdx < |schema.materialized|
        invariant old(columnIdx) <= columnIdx
        invariant columnIdx <= |schema.materialized| || columnIdx == old(columnIdx)
        invariant c' == c.(fields := c'.fields)
        invariant c'.fields + MissingFrom(schema, columnIdx) == c.fields + MissingFrom(schema, old(columnIdx))
      {
        if schema.materialized[columnIdx] {
          c' := c'.(fields := c'.fields + [Missing]);
        }
        columnIdx := columnIdx + 1;
      }
      assert MissingFrom(schema, columnIdx) == [];
    }

    /** The end of a row at position d. */
    method EndRow(escapes: bool, d: nat, c: Cursor) returns (c': Cursor)
      modifies this`columnIdx, this`hasEscape
      ensures View(c') == EndColumns(schema, escapes, old(View(c)).(pos := d)).(pos := c.pos)
    {
      c' := AddColumn(escapes, d - c.columnStart, c);
      c' := FillColumns(c');
      columnIdx := schema.numPartitionKeys;
      c' := c'.(numTuples := c'.numTuples + 1);
    }

    /** A row that ends at the tuple delimiter at d. */
    method SseRow(escapes: bool, buf: seq<byte>, d: nat, c: Cursor) returns (c': Cursor)
      requires d < |buf| && (!escapes ==> !hasEscape)
      modifies this`columnIdx, this`hasEscape, this`rowDelimOffset
      ensures View(c').(lastIsEscape := false) ==
              RowEnded(schema, old(View(c)).(pos := d, lastIsEscape := false), buf[d], |buf| - d).(pos := c.pos)
      ensures !hasEscape
    {
      c' := EndRow(escapes, d, c);
      c' := c'.(rowEnds := c'.rowEnds + [d]);
      rowDelimOffset := if buf[d] == CR then |buf| - d - 1 else -1;
    }

    /** The tuple delimiter at d has filled the batch. */
    method SseFull(escapes: bool, buf: seq<byte>, d: nat, c: Cursor) returns (c': Cursor)
      requires d < |buf| && (!escapes ==> !lastIsEscape)
      modifies this`lastIsEscape, this`rowDelimOffset
      ensures View(c') == Full(old(View(c)).(pos := d + 1, lastIsEscape := false), |buf| - d - 1)
    {
      c' := c.(pos := d + 1);
      if escapes {
        lastIsEscape := false;
      }
      if rowDelimOffset == |buf| - d - 1 {
        rowDelimOffset := 0;
      }
    }

    /** A tuple delimiter at bit n of the block at c.pos. */
    method SseTuple(escapes: bool, maxTuples: int, buf: seq<byte>, n: nat, c: Cursor) returns (c': Cursor, full: bool)
      requires c.pos + n < |buf| && c.numTuples != maxTuples && (!escapes ==> !hasEscape && !lastIsEscape)
      modifies this
      ensures var q := old(View(c)).(pos := c.pos + n, lastIsEscape := false);
              var left := |buf| - q.pos;
              var ended := RowEnded(schema, q, buf[q.pos], left);
              var r := View(c').(lastIsEscape := false);
              if q.rowDelimOffset == left && buf[q.pos] == LF then
                !full && r == q.(columnStart := q.columnStart + 1, rowDelimOffset := -1, pos := c.pos)
              else
                && full == (ended.numTuples == maxTuples)
                && r == if full then Full(ended, left - 1) else ended.(pos := c.pos)
      ensures lastIsEscape == (!full && old(lastIsEscape))
      ensures !escapes ==> !hasEscape && !lastIsEscape
    {
      var d := c.pos + n;
      if rowDelimOffset == |buf| - d && buf[d] == LF {
        c', full := c.(columnStart := c.columnStart + 1), false;
        rowDelimOffset := -1;
        return;
      }
      c' := SseRow(escapes, buf, d, c);
      full := c'.numTuples == maxTuples;
      if full {
        c' := SseFull(escapes, buf, d, c');
      }
    }

    lemma BlockDelims(haystack: seq<byte>, buf: seq<byte>, base: nat)
      requires Valid() && format.Vectorizable() && NoNul(buf)
      requires base + WIDTH <= |buf| && haystack == buf[base..base + WIDTH]
      ensures forall i :: 0 <= i < WIDTH ==> (Cmpistrm(delimSearch, haystack)[i] <==> format.IsDelim(buf[base + i]))
    {
      forall i | 0 <= i < WIDTH
        ensures Cmpistrm(delimSearch, haystack)[i] <==> format.IsDelim(buf[base + i])
      {
        assert haystack[i] == buf[base + i];
        SearchesDelims(format, haystack[i]);
      }
    }

    lemma BlockEscapes(haystack: seq<byte>, buf: seq<byte>, base: nat)
      requires Valid() && format.escapeChar != NUL && NoNul(buf)
      requires base + WIDTH <= |buf| && haystack == buf[base..base + WIDTH]
      ensures EscapesOf(format, buf, base, Cmpistrm(escapeSearch, haystack))
    {
      forall i | 0 <= i < WIDTH
        ensures Cmpistrm(escapeSearch, haystack)[i] <==> buf[base + i] == format.escapeChar
      {
        assert haystack[i] == buf[base + i];
        SearchesEscape(format.escapeChar, haystack[i]);
      }
    }

    /** The masks of the block at base, and the escape flag after it. */
    method BlockMasks(escapes: bool, buf: seq<byte>, base: nat) returns (delims: Mask, escapeMask: Mask)
      requires Valid() && format.Vectorizable() && NoNul(buf) && escapes == (format.escapeChar != NUL)
      requires base + WIDTH <= |buf| && (!escapes ==> !lastIsEscape)
      modifies this`lastIsEscape
      ensures lastIsEscape == EscapeAfter(format, buf, base, base + WIDTH, old(lastIsEscape))
      ensures !escapes ==> !lastIsEscape
      ensures Pending(format, buf, base, old(lastIsEscape), 0, delims)
      ensures EscapesOf(format, buf, base, escapeMask)
    {
      var haystack := buf[base..base + WIDTH];
      delims := Cmpistrm(delimSearch, haystack);
      escapeMask := ZERO;
      BlockDelims(haystack, buf, base);
      if escapes {
        escapeMask := Cmpistrm(escapeSearch, haystack);
        BlockEscapes(haystack, buf, base);
        forall i | 0 <= i <= WIDTH {
          EscapedIsEscapeAfter(format, buf, base, escapeMask, lastIsEscape, i);
        }
        lastIsEscape, delims := ProcessEscapeMask(escapeMask, lastIsEscape, delims);
      } else {
        forall upTo | base <= upTo <= base + WIDTH ensures !EscapeAfter(format, buf, base, upTo, false) {
          NoEscapes(format, buf, base, upTo);
        }
      }
    }

    /** Which column the escape characters before bit n belong to, and the flag for it. */
    method NoteEscapes(escapes: bool, ghost buf: seq<byte>, ghost base: nat, escapeMask: Mask, last: nat, n: nat,
                       ghost k: nat, ghost end: nat)
      requires Valid() && NoNul(buf) && escapes == (format.escapeChar != NUL) &&
               EscapesOf(format, buf, base, escapeMask)
      requires last < WIDTH && last <= k <= end <= n + 1 && n < WIDTH && k <= last + 1 && n <= end
      requires k == last + 1 ==> !escapeMask[last]
      requires n == end ==> !escapeMask[n]
      modifies this`hasEscape
      ensures hasEscape == (old(hasEscape) || EscapeIn(format, buf, base + k, base + end))
      ensures !escapes ==> hasEscape == old(hasEscape)
    {
      if escapes {
        MaskedEscapes(format, buf, base, escapeMask, last, k, n, end);
        var escaped := NonZero(And(And(escapeMask, lowMask[last]), highMask[n]));
        hasEscape := hasEscape || escaped;
      } else {
        NoEscapes(format, buf, base + k, base + end);
      }
    }

    /** The active delimiter at bit n of the block at c.pos, the escape flags being up to date.
        `goal` is what the scalar loop computes from there. */
    method SseDelim(escapes: bool, maxTuples: int, buf: seq<byte>, n: nat, c: Cursor, ghost run: Parse -> Stop,
                    ghost goal: Stop)
      returns (c': Cursor, full: bool)
      requires Valid() && format.Vectorizable() && NoNul(buf) && c.numTuples != maxTuples
      requires c.pos + n < |buf| && (!escapes ==> !hasEscape && !lastIsEscape)
      requires format.IsDelim(buf[c.pos + n])
      requires IsScan(run, format, schema, buf, maxTuples)
      requires goal == run(View(c).(pos := c.pos + n, lastIsEscape := false))
      modifies this
      ensures full == (c'.numTuples == maxTuples)
      ensures !escapes ==> !hasEscape && !lastIsEscape
      ensures !full ==> c'.pos == c.pos && lastIsEscape == old(lastIsEscape)
      ensures goal == if full then Stop(View(c'), true)
                      else run(View(c').(pos := c.pos + n + 1, lastIsEscape := false))
    {
      var ch := buf[c.pos + n];
      ghost var q := View(c).(pos := c.pos + n, lastIsEscape := false);
      if ch == format.fieldDelim || ch == format.itemDelim {
        RunField(run, format, schema, buf, maxTuples, q);
        c' := AddColumn(escapes, c.pos + n - c.columnStart, c);
        full := false;
        assert View(c').(pos := q.pos + 1, lastIsEscape := false)
            == TextFormat.AddColumn(schema, true, q, q.pos - q.columnStart).(pos := q.pos + 1);
      } else {
        RunTuple(run, format, schema, buf, maxTuples, q);
        c', full := SseTuple(escapes, maxTuples, buf, n, c);
      }
    }

    /** The next active delimiter of the block, at bit n. */
    method SseNext(escapes: bool, maxTuples: int, buf: seq<byte>, c: Cursor, delims: Mask, escapeMask: Mask, n: nat,
                   lastCol: nat, ghost k: nat, ghost initially: bool, ghost run: Parse -> Stop, ghost goal: Stop)
      returns (c': Cursor, full: bool)
      requires Valid() && format.Vectorizable() && NoNul(buf) && escapes == (format.escapeChar != NUL)
      requires !escapes ==> !hasEscape && !lastIsEscape
      requires IsScan(run, format, schema, buf, maxTuples)
      requires InBlock(run, format, buf, initially, View(c), delims, k, goal) && LowestBit(delims, n)
      requires EscapesOf(format, buf, c.pos, escapeMask) && c.numTuples != maxTuples && !escapeMask[n]
      requires lastCol < WIDTH && lastCol <= k <= lastCol + 1 && (k == lastCol + 1 ==> !escapeMask[lastCol])
      modifies this
      ensures !escapes ==> !hasEscape && !lastIsEscape
      ensures full == (c'.numTuples == maxTuples)
      ensures !full ==> c'.pos == c.pos && lastIsEscape == old(lastIsEscape)
      ensures goal == if full then Stop(View(c'), true) else run(View(c').(pos := c.pos + n + 1, lastIsEscape := false))
    {
      ToDelim(run, format, schema, buf, maxTuples, initially, View(c), delims, k, goal, n);
      NoteEscapes(escapes, buf, c.pos, escapeMask, lastCol, n, k, n);
      c', full := SseDelim(escapes, maxTuples, buf, n, c, run, goal);
    }

    /** One pass of ParseSse's inner loop. */
    method SsePass(escapes: bool, maxTuples: int, buf: seq<byte>, c: Cursor, delims: Mask, escapeMask: Mask, n: nat,
                   lastCol: nat, ghost k: nat, ghost initially: bool, ghost run: Parse -> Stop, ghost goal: Stop)
      returns (c': Cursor, full: bool)
      requires Valid() && format.Vectorizable() && NoNul(buf) && escapes == (format.escapeChar != NUL)
      requires !escapes ==> !hasEscape && !lastIsEscape
      requires IsScan(run, format, schema, buf, maxTuples)
      requires InBlock(run, format, buf, initially, View(c), delims, k, goal) && LowestBit(delims, n)
      requires EscapesOf(format, buf, c.pos, escapeMask) && c.numTuples != maxTuples
      requires lastCol < WIDTH && lastCol <= k <= lastCol + 1 && (k == lastCol + 1 ==> !escapeMask[lastCol])
      modifies this
      ensures k <= n && !escapeMask[n] && full == (c'.numTuples == maxTuples)
      ensures !escapes ==> !hasEscape && !lastIsEscape
      ensures full ==> goal == Stop(View(c'), true)
      ensures !full ==>
                && c'.pos == c.pos
                && InBlock(run, format, buf, initially, View(c'), And(delims, Not(Bitmask(n))), n + 1, goal)
    {
      ghost var p := View(c);
      DelimIsNotEscape(format, buf, c.pos, initially, k, delims, escapeMask, n);
      c', full := SseNext(escapes, maxTuples, buf, c, delims, escapeMask, n, lastCol, k, initially, run, goal);
      if !full {
        PastDelim(run, format, buf, initially, p, View(c'), delims, k, goal, n);
      }
    }

    /** ParseSse's inner loop: the set bits of delims, from the lowest to the highest. */
    method SseDelims(escapes: bool, maxTuples: int, buf: seq<byte>, c: Cursor, delims: Mask, escapeMask: Mask,
                     ghost initially: bool, ghost run: Parse -> Stop, ghost goal: Stop)
      returns (c': Cursor, full: bool, lastCol: nat, ghost k: nat)
      requires Valid() && format.Vectorizable() && NoNul(buf) && escapes == (format.escapeChar != NUL)
      requires c.numTuples != maxTuples && (!escapes ==> !hasEscape && !lastIsEscape)
      requires IsScan(run, format, schema, buf, maxTuples)
      requires InBlock(run, format, buf, initially, View(c), delims, 0, goal) &&
               EscapesOf(format, buf, c.pos, escapeMask)
      modifies this
      ensures full == (c'.numTuples == maxTuples)
      ensures !escapes ==> !hasEscape && !lastIsEscape
      ensures full ==> goal == Stop(View(c'), true)
      ensures !full ==> c'.pos == c.pos && InBlock(run, format, buf, initially, View(c'), ZERO, k, goal)
      ensures lastCol < WIDTH && lastCol <= k <= lastCol + 1 && (k == lastCol + 1 ==> !escapeMask[lastCol])
    {
      c', full, lastCol, k := c, false, 0, 0;
      var left := delims;
      while NonZero(left)
        invariant c'.pos == c.pos && !full && c'.numTuples != maxTuples
        invariant lastCol < WIDTH && lastCol <= k <= lastCol + 1 && (k == lastCol + 1 ==> !escapeMask[lastCol])
        invariant InBlock(run, format, buf, initially, View(c'), left, k, goal)
        invariant !escapes ==> !hasEscape && !lastIsEscape
        decreases WIDTH - k
      {
        var n := FirstBit(left);
        c', full := SsePass(escapes, maxTuples, buf, c', left, escapeMask, n, lastCol, k, initially, run, goal);
        if full {
          return;
        }
        left := And(left, Not(Bitmask(n)));
        lastCol, k := n, n + 1;
      }
      assert left == ZERO;
    }

    /** One pass of ParseSse's outer loop; `goal` is what the scalar loop computes from c. */
    method SseBlock(escapes: bool, maxTuples: int, buf: seq<byte>, c: Cursor, ghost run: Parse -> Stop,
                    ghost goal: Stop)
      returns (c': Cursor, full: bool)
      requires Valid() && format.Vectorizable() && NoNul(buf) && escapes == (format.escapeChar != NUL)
      requires c.pos + WIDTH <= |buf| && c.numTuples != maxTuples && (!escapes ==> !hasEscape && !lastIsEscape)
      requires IsScan(run, format, schema, buf, maxTuples)
      requires goal == run(View(c))
      modifies this
      ensures full == (c'.numTuples == maxTuples)
      ensures !escapes ==> !hasEscape && !lastIsEscape
      ensures goal == if full then Stop(View(c'), true) else run(View(c'))
      ensures !full ==> c'.pos == c.pos + WIDTH
    {
      ghost var initially := lastIsEscape;
      assert View(c) == Within(format, buf, View(c), initially, 0);
      var delims, escapeMask := BlockMasks(escapes, buf, c.pos);
      ghost var k;
      var lastCol;
      c', full, lastCol, k := SseDelims(escapes, maxTuples, buf, c, delims, escapeMask, initially, run, goal);
      if full {
        return;
      }
      ToEnd(run, format, schema, buf, maxTuples, initially, View(c'), ZERO, k, goal);
      NoteEscapes(escapes, buf, c.pos, escapeMask, lastCol, WIDTH - 1, k, WIDTH);
      c' := c'.(pos := c.pos + WIDTH);
    }

    /** The vectorised part of a parse: whole blocks, until the batch is full or fewer than
        sixteen characters are left.  The scalar loop would go through the same state. */
    method ParseSse(escapes: bool, maxTuples: int, buf: seq<byte>, c: Cursor) returns (c': Cursor)
      requires Valid() && format.Vectorizable() && NoNul(buf) && escapes == (format.escapeChar != NUL)
      requires c.pos <= |buf| && c.numTuples != maxTuples && Coherent(format, View(c))
      modifies this
      ensures Coherent(format, View(c'))
      ensures var expected := Scan(format, schema, buf, maxTuples, old(View(c)));
              if c'.numTuples == maxTuples then expected == Stop(View(c'), true)
              else |buf| - WIDTH < c'.pos <= |buf| && expected == Scan(format, schema, buf, maxTuples, View(c'))
    {
      c' := c;
      ghost var run := (p: Parse) => Scan(format, schema, buf, maxTuples, p);
      ghost var goal := run(View(c));
      while |buf| - c'.pos >= WIDTH
        invariant c.pos <= c'.pos <= |buf| && c'.numTuples != maxTuples
        invariant goal == run(View(c')) && Coherent(format, View(c'))
        decreases |buf| - c'.pos
      {
        var full;
        c', full := SseBlock(escapes, maxTuples, buf, c', run, goal);
        if full {
          return;
        }
      }
    }

    /** One character of the scalar loop. */
    method ParseChar(buf: seq<byte>, c: Cursor) returns (c': Cursor, newTuple: bool)
      requires c.pos < |buf|
      modifies this
      ensures View(c') == Consume(format, schema, old(View(c)), buf[c.pos], |buf| - c.pos)
      ensures newTuple == EndsRow(format, old(View(c)), buf[c.pos])
    {
      var ch, remaining := buf[c.pos], |buf| - c.pos;
      c', newTuple := c, false;
      var newCol := false;
      if !lastIsEscape {
        if format.IsTupleDelim(ch) {
          newTuple, newCol := true, true;
        } else if ch == format.fieldDelim || ch == format.itemDelim {
          newCol := true;
        }
      }
      if ch == format.escapeChar {
        hasEscape := true;
        lastIsEscape := !lastIsEscape;
      } else {
        lastIsEscape := false;
      }
      if newTuple {
        if rowDelimOffset == remaining && ch == LF {
          c' := c'.(columnStart := c'.columnStart + 1);
        } else {
          c' := EndRow(true, c.pos, c');
          c' := c'.(rowEnds := c'.rowEnds + [c.pos]);
        }
        rowDelimOffset := if ch == CR then remaining - 1 else -1;
      } else if newCol {
        c' := AddColumn(true, c.pos - c'.columnStart, c');
      }
    }

    /** The same, and whether it fills the batch. */
    method TailChar(maxTuples: int, buf: seq<byte>, c: Cursor, ghost run: Parse -> Stop)
      returns (c': Cursor, full: bool)
      requires c.pos < |buf| && IsScan(run, format, schema, buf, maxTuples)
      modifies this
      ensures c'.pos == c.pos + 1
      ensures run(old(View(c))) == if full then Stop(View(c'), true) else run(View(c'))
    {
      RunChar(run, format, schema, buf, maxTuples, View(c));
      var ended;
      c', ended := ParseChar(buf, c);
      c' := c'.(pos := c'.pos + 1);
      full := ended && c'.numTuples == maxTuples;
      if full && rowDelimOffset == |buf| - c'.pos {
        rowDelimOffset := 0;
      }
    }

    /** The characters that are left over, one at a time. */
    method ParseTail(maxTuples: int, buf: seq<byte>, c: Cursor) returns (c': Cursor, full: bool)
      requires c.pos <= |buf|
      modifies this
      ensures Stop(View(c'), full) == Scan(format, schema, buf, maxTuples, old(View(c)))
    {
      c', full := c, false;
      ghost var run := (p: Parse) => Scan(format, schema, buf, maxTuples, p);
      ghost var goal := run(View(c));
      while c'.pos < |buf|
        invariant c.pos <= c'.pos <= |buf| && !full
        invariant goal == run(View(c'))
        decreases |buf| - c'.pos
      {
        c', full := TailChar(maxTuples, buf, c', run);
        if full {
          return;
        }
      }
    }

    /** Finds the fields and rows of buf from c.pos on, whether or not the processor has the
        vector instructions: the result is that of the scalar loop. */
    method ParseFieldLocations(sse: bool, maxTuples: int, buf: seq<byte>, c: Cursor) returns (c': Cursor)
      requires Valid() && format.Vectorizable() && NoNul(buf)
      requires c.pos <= |buf| && c.numTuples != maxTuples && Coherent(format, View(c))
      modifies this
      ensures View(c') == ScalarParse(format, schema, buf, maxTuples, old(View(c)))
      ensures Coherent(format, View(c'))
    {
      ParseCoherent(format, schema, buf, maxTuples, View(c));
      c' := c.(columnStart := c.pos);
      rowDelimOffset := if rowDelimOffset == 0 then |buf| - c.pos else -1;
      assert View(c') == Enter(buf, old(View(c)));
      if sse {
        c' := ParseSse(format.escapeChar != NUL, maxTuples, buf, c');
      }
      if c'.numTuples == maxTuples {
        return;
      }
      var full;
      c', full := ParseTail(maxTuples, buf, c');
      if !full && format.tupleDelim == NUL {
        c' := EndRow(true, c'.pos, c');
      }
    }

    /** The position behind the first row delimiter from `from` on, or -1. */
    method FindDelim(sse: bool, buf: seq<byte>, from: nat) returns (end: int)
      requires format.tupleDelim != NUL && from <= |buf|
      ensures end == -1 ==> forall i :: from <= i < |buf| ==> buf[i] != format.tupleDelim
      ensures end != -1 ==> from < end <= |buf| && (CR !in buf ==> buf[end - 1] == format.tupleDelim)
      ensures end != -1 ==> forall i :: from <= i < end - 1 ==> buf[i] != format.tupleDelim
    {
      var tupleStart: nat := from;
      if sse {
        while |buf| - tupleStart >= WIDTH
          invariant from <= tupleStart <= |buf|
          invariant forall i :: from <= i < tupleStart ==> buf[i] != format.tupleDelim
          decreases |buf| - tupleStart
        {
          ghost var block := buf[tupleStart..tupleStart + WIDTH];
          assert forall i :: 0 <= i < WIDTH ==> block[i] == buf[tupleStart + i];
          var mask := Cmpestrm([format.tupleDelim], buf[tupleStart..tupleStart + WIDTH]);
          if NonZero(mask) {
            for i := 0 to WIDTH
              invariant forall j :: 0 <= j < i ==> !mask[j]
              invariant forall j :: tupleStart <= j < tupleStart + i ==> buf[j] != format.tupleDelim
            {
              if mask[i] {
                return tupleStart + i + 1;
              }
            }
          }
          forall j | tupleStart <= j < tupleStart + WIDTH ensures buf[j] != format.tupleDelim {
            assert !mask[j - tupleStart];
          }
          tupleStart := tupleStart + WIDTH;
        }
      }
      while tupleStart < |buf|
        invariant from <= tupleStart <= |buf|
        invariant forall i :: from <= i < tupleStart ==> buf[i] != format.tupleDelim
      {
        var c := buf[tupleStart];
        if c == format.tupleDelim || (c == CR && format.tupleDelim == LF) {
          return tupleStart + 1;
        }
        tupleStart := tupleStart + 1;
      }
      return -1;
    }

    /** How many escape characters stand directly before position end. */
    method CountEscapes(buf: seq<byte>, end: nat) returns (n: nat)
      requires end <= |buf|
      ensures n == EscapeRun(format, buf, end)
    {
      n := 0;
      var i := end - 1;
      while i >= 0
        invariant -1 <= i < end
        invariant n + EscapeRun(format, buf, i + 1) == EscapeRun(format, buf, end)
      {
        if buf[i] == format.escapeChar {
          n := n + 1;
        } else {
          break;
        }
        i := i - 1;
      }
    }

    /** The position behind the first row delimiter that is not escaped, or -1, for a buffer
        without '\r'.  The search runs forward to a delimiter, counts the escape characters
        before it backwards, and starts again behind it if their number is odd. */
    method FindFirstInstance(sse: bool, buf: seq<byte>) returns (start: int)
      requires Valid() && format.tupleDelim != NUL && (rowDelimOffset != -1 ==> buf != [])
      modifies this`rowDelimOffset
      ensures CR !in buf || old(rowDelimOffset) != -1 ==> rowDelimOffset == old(rowDelimOffset)
      ensures old(rowDelimOffset) != -1 ==> start == if buf[0] == LF then 1 else 0
      ensures old(rowDelimOffset) == -1 && CR !in buf ==>
                if start == -1 then forall i :: 0 <= i < |buf| && buf[i] == format.tupleDelim ==> Masked(format, buf, i)
                else
                  && 0 < start <= |buf|
                  && buf[start - 1] == format.tupleDelim && !Masked(format, buf, start - 1)
                  && forall i :: 0 <= i < start - 1 && buf[i] == format.tupleDelim ==> Masked(format, buf, i)
    {
      if rowDelimOffset != -1 {
        return if buf[0] == LF then 1 else 0;
      }
      forall i | 0 <= i <= |buf| ensures Active(format, buf, i) == !EscapeAfter(format, buf, 0, i, false) {
        ActiveIsUnescaped(format, buf, i);
      }
      var tupleStart: nat := 0;
      while true
        invariant 0 <= tupleStart <= |buf| && rowDelimOffset == -1
        invariant CR !in buf ==> forall i :: 0 <= i < tupleStart && buf[i] == format.tupleDelim ==>
                    Masked(format, buf, i)
        decreases |buf| - tupleStart
      {
        var end := FindDelim(sse, buf, tupleStart);
        if end == -1 {
          return -1;
        }
        tupleStart := end;
        if format.escapeChar != NUL {
          var n := CountEscapes(buf, tupleStart - 1);
          if n % 2 != 0 {
            continue;
          }
        }
        if tupleStart == |buf| - 1 && buf[tupleStart] == CR {
          rowDelimOffset := 0;
          return -1;
        }
        if tupleStart < |buf| && buf[tupleStart] == LF && buf[tupleStart - 1] == CR {
          tupleStart := tupleStart + 1;
        }
        return tupleStart;
      }
    }
  }
}
