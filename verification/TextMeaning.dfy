/** What the scalar parser of TextFormat computes, said without its running state:
    a buffer is cut into rows and chunks at its active delimiters, and the rows are
    projected onto the materialized columns.
 */
module TextMeaning {
  import opened Bytes
  import opened TextFormat
  import opened Folding

  /** No character is both an escape character and a row delimiter. */
  predicate Plain(f: Format) {
    f.Legal() && !(f.escapeChar == CR && f.tupleDelim == LF)
  }

  // ----- row and field ends -----

  predicate RowBreak(f: Format, buf: seq<byte>, i: nat)
    requires i < |buf|
  {
    Active(f, buf, i) && f.IsTupleDelim(buf[i])
  }

  /** Is position i directly behind a row break '\r'? */
  predicate BehindCr(f: Format, buf: seq<byte>, i: nat)
    requires i <= |buf|
  {
    i > 0 && buf[i - 1] == CR && RowBreak(f, buf, i - 1)
  }

  /** The second half of a '\r\n'. */
  predicate JoinedLf(f: Format, buf: seq<byte>, i: nat)
    requires i < |buf|
  {
    buf[i] == LF && RowBreak(f, buf, i) && BehindCr(f, buf, i)
  }

  predicate EndsRowAt(f: Format, buf: seq<byte>, i: nat)
    requires i < |buf|
  {
    RowBreak(f, buf, i) && !JoinedLf(f, buf, i)
  }

  predicate EndsFieldAt(f: Format, buf: seq<byte>, i: nat)
    requires i < |buf|
  {
    Active(f, buf, i) && !f.IsTupleDelim(buf[i]) && f.IsFieldDelim(buf[i])
  }

  /** The positions below n at which a row ends, in order. */
  function RowEnds(f: Format, buf: seq<byte>, n: nat): seq<nat>
    requires n <= |buf|
  {
    if n == 0 then []
    else RowEnds(f, buf, n - 1) + (if EndsRowAt(f, buf, n - 1) then [n - 1] else [])
  }

  // ----- rows and chunks -----

  datatype Chunk = Chunk(start: nat, end: nat)

  /** The complete rows, the chunks of the row in progress, and where its next chunk starts. */
  datatype Grid = Grid(rows: seq<seq<Chunk>>, open: seq<Chunk>, start: nat)

  function GridUpTo(f: Format, buf: seq<byte>, n: nat): (g: Grid)
    requires n <= |buf|
    ensures g.start <= n
  {
    if n == 0 then Grid([], [], 0)
    else
      var g, i := GridUpTo(f, buf, n - 1), n - 1;
      if JoinedLf(f, buf, i) then g.(start := g.start + 1)
      else if RowBreak(f, buf, i) then Grid(g.rows + [g.open + [Chunk(g.start, i)]], [], n)
      else if EndsFieldAt(f, buf, i) then g.(open := g.open + [Chunk(g.start, i)], start := n)
      else g
  }

  // ----- projection -----

  function Location(f: Format, buf: seq<byte>, c: Chunk): FieldLocation {
    Field(c.start, if c.start <= c.end <= |buf| && EscapeIn(f, buf, c.start, c.end) then c.start - c.end
                   else c.end - c.start)
  }

  /** The fields of the first chunks of a row, the first of them being column columnIdx. */
  function ProjectChunks(f: Format, s: Schema, buf: seq<byte>, columnIdx: nat, row: seq<Chunk>): seq<FieldLocation>
    decreases |row|
  {
    if row == [] then []
    else
      var last := |row| - 1;
      Keep(s, columnIdx + last, ProjectChunks(f, s, buf, columnIdx, row[..last]), Location(f, buf, row[last]))
  }

  /** A complete row: the materialized chunks, then one Missing per column it is short of. */
  function ProjectRow(f: Format, s: Schema, buf: seq<byte>, row: seq<Chunk>): seq<FieldLocation> {
    ProjectChunks(f, s, buf, s.numPartitionKeys, row) + MissingFrom(s, s.numPartitionKeys + |row|)
  }

  function ProjectRows(f: Format, s: Schema, buf: seq<byte>, rows: seq<seq<Chunk>>): seq<FieldLocation>
    decreases |rows|
  {
    if rows == [] then []
    else ProjectRows(f, s, buf, rows[..|rows| - 1]) + ProjectRow(f, s, buf, rows[|rows| - 1])
  }

  // ----- the parser computes the projection of the grid -----

  /** The fields of a grid: its complete rows, then the row in progress. */
  function FieldsOf(f: Format, s: Schema, buf: seq<byte>, rows: seq<seq<Chunk>>, open: seq<Chunk>): seq<FieldLocation> {
    ProjectRows(f, s, buf, rows) + ProjectChunks(f, s, buf, s.numPartitionKeys, open)
  }

  /** The same, kept folded except where a proof mentions Unfold. */
  ghost predicate IsFields(f: Format, s: Schema, buf: seq<byte>, rows: seq<seq<Chunk>>, open: seq<Chunk>,
                           fields: seq<FieldLocation>) {
    forall u: bool {:trigger Unfold(u)} :: Unfold(u) ==> fields == FieldsOf(f, s, buf, rows, open)
  }

  ghost predicate FieldsAre(f: Format, s: Schema, buf: seq<byte>, p: Parse, g: Grid, rowEnds: seq<nat>) {
    p.numTuples == |g.rows| && IsFields(f, s, buf, g.rows, g.open, p.fields) && p.rowEnds == rowEnds
  }

  ghost predicate MeansFields(f: Format, s: Schema, buf: seq<byte>, p: Parse) {
    p.pos <= |buf| && FieldsAre(f, s, buf, p, GridUpTo(f, buf, p.pos), RowEnds(f, buf, p.pos))
  }

  ghost predicate MeansState(f: Format, s: Schema, buf: seq<byte>, p: Parse) {
    && p.pos <= |buf|
    && var g := GridUpTo(f, buf, p.pos);
       && p.columnStart == g.start
       && p.columnIdx == s.numPartitionKeys + |g.open|
       && p.hasEscape == EscapeIn(f, buf, g.start, p.pos)
       && p.lastIsEscape == !Active(f, buf, p.pos)
       && (p.rowDelimOffset == |buf| - p.pos <==> BehindCr(f, buf, p.pos))
       && (p.rowDelimOffset == -1 || |buf| - p.pos <= p.rowDelimOffset)
  }

  /** p is what a parse of buf from its beginning has reached at p.pos. */
  ghost predicate Means(f: Format, s: Schema, buf: seq<byte>, p: Parse) {
    MeansFields(f, s, buf, p) && MeansState(f, s, buf, p)
  }

  lemma Regroup(a: seq<FieldLocation>, b: seq<FieldLocation>, c: seq<FieldLocation>)
    ensures a + (b + c) == a + b + c
  {
  }

  lemma RowAppended(f: Format, s: Schema, buf: seq<byte>, rows: seq<seq<Chunk>>, row: seq<Chunk>)
    ensures ProjectRows(f, s, buf, rows + [row]) == ProjectRows(f, s, buf, rows) + ProjectRow(f, s, buf, row)
  {
    assert (rows + [row])[..|rows|] == rows;
  }

  lemma ChunkAppended(f: Format, s: Schema, buf: seq<byte>, columnIdx: nat, row: seq<Chunk>, c: Chunk)
    ensures ProjectChunks(f, s, buf, columnIdx, row + [c]) ==
            Keep(s, columnIdx + |row|, ProjectChunks(f, s, buf, columnIdx, row), Location(f, buf, c))
  {
    assert (row + [c])[..|row|] == row;
  }

  lemma FieldExtends(f: Format, s: Schema, buf: seq<byte>, rows: seq<seq<Chunk>>, open: seq<Chunk>, c: Chunk)
    ensures FieldsOf(f, s, buf, rows, open + [c]) ==
            Keep(s, s.numPartitionKeys + |open|, FieldsOf(f, s, buf, rows, open), Location(f, buf, c))
  {
    ChunkAppended(f, s, buf, s.numPartitionKeys, open, c);
  }

  lemma RowExtends(f: Format, s: Schema, buf: seq<byte>, rows: seq<seq<Chunk>>, row: seq<Chunk>)
    ensures FieldsOf(f, s, buf, rows + [row], []) ==
            FieldsOf(f, s, buf, rows, row) + MissingFrom(s, s.numPartitionKeys + |row|)
  {
    RowAppended(f, s, buf, rows, row);
    var chunks := ProjectChunks(f, s, buf, s.numPartitionKeys, row);
    Regroup(ProjectRows(f, s, buf, rows), chunks, MissingFrom(s, s.numPartitionKeys + |row|));
  }

  /** The row in progress, extended with a chunk. */
  lemma RowGrows(f: Format, s: Schema, buf: seq<byte>, rows: seq<seq<Chunk>>, open: seq<Chunk>, c: Chunk,
                 fields: seq<FieldLocation>)
    requires IsFields(f, s, buf, rows, open, fields)
    ensures IsFields(f, s, buf, rows, open + [c], Keep(s, s.numPartitionKeys + |open|, fields, Location(f, buf, c)))
  {
    assert Unfold(true);
    FieldExtends(f, s, buf, rows, open, c);
  }

  /** The row in progress, closed with a last chunk. */
  lemma RowCloses(f: Format, s: Schema, buf: seq<byte>, rows: seq<seq<Chunk>>, open: seq<Chunk>, c: Chunk,
                  fields: seq<FieldLocation>)
    requires IsFields(f, s, buf, rows, open, fields)
    ensures IsFields(f, s, buf, rows + [open + [c]], [],
                     Keep(s, s.numPartitionKeys + |open|, fields, Location(f, buf, c)) +
                     MissingFrom(s, s.numPartitionKeys + |open| + 1))
  {
    assert Unfold(true);
    FieldExtends(f, s, buf, rows, open, c);
    RowExtends(f, s, buf, rows, open + [c]);
  }

  /** What AddColumn appends at an active delimiter. */
  lemma ColumnAdded(f: Format, s: Schema, buf: seq<byte>, p: Parse)
    requires MeansState(f, s, buf, p)
    ensures var g := GridUpTo(f, buf, p.pos);
            AddColumn(s, true, p, p.pos - p.columnStart) ==
            p.(fields := Keep(s, p.columnIdx, p.fields, Location(f, buf, Chunk(g.start, p.pos))),
               hasEscape := false, columnStart := p.pos + 1, columnIdx := p.columnIdx + 1)
  {
  }

  /** An active delimiter is not an escape character, so nothing behind it is escaped. */
  lemma BehindDelim(f: Format, buf: seq<byte>, i: nat)
    requires Plain(f) && NoNul(buf) && i < |buf| && f.IsDelim(buf[i])
    ensures buf[i] != f.escapeChar && Active(f, buf, i + 1) && !EscapeIn(f, buf, i + 1, i + 1)
  {
  }

  lemma ConsumedField(f: Format, s: Schema, buf: seq<byte>, p: Parse)
    requires Plain(f) && NoNul(buf) && MeansState(f, s, buf, p) && p.pos < |buf| && EndsFieldAt(f, buf, p.pos)
    ensures var g := GridUpTo(f, buf, p.pos);
            Consume(f, s, p, buf[p.pos], |buf| - p.pos) ==
            p.(fields := Keep(s, p.columnIdx, p.fields, Location(f, buf, Chunk(g.start, p.pos))),
               hasEscape := false, columnStart := p.pos + 1, columnIdx := p.columnIdx + 1)
  {
    BehindDelim(f, buf, p.pos);
    assert Escape(f, p, buf[p.pos]) == p;
    ColumnAdded(f, s, buf, p);
  }

  /** What EndRow appends at an active row delimiter. */
  lemma RowEnded(f: Format, s: Schema, buf: seq<byte>, p: Parse)
    requires MeansState(f, s, buf, p)
    ensures var g := GridUpTo(f, buf, p.pos);
            var added := Keep(s, p.columnIdx, p.fields, Location(f, buf, Chunk(g.start, p.pos)));
            EndRow(s, true, p) ==
            p.(fields := added + MissingFrom(s, p.columnIdx + 1), hasEscape := false, columnStart := p.pos + 1,
               columnIdx := s.numPartitionKeys, numTuples := p.numTuples + 1, rowEnds := p.rowEnds + [p.pos])
  {
    ColumnAdded(f, s, buf, p);
  }

  lemma AtRowDelim(f: Format, s: Schema, buf: seq<byte>, p: Parse)
    requires Plain(f) && NoNul(buf) && MeansState(f, s, buf, p) && p.pos < |buf| && EndsRowAt(f, buf, p.pos)
    ensures var c := buf[p.pos];
            EndsRow(f, p, c) && Escape(f, p, c) == p && !SkipsLf(p, |buf| - p.pos, c)
  {
    BehindDelim(f, buf, p.pos);
  }

  lemma ConsumedRow(f: Format, s: Schema, buf: seq<byte>, p: Parse)
    requires Plain(f) && NoNul(buf) && MeansState(f, s, buf, p) && p.pos < |buf| && EndsRowAt(f, buf, p.pos)
    ensures var g := GridUpTo(f, buf, p.pos);
            var added := Keep(s, p.columnIdx, p.fields, Location(f, buf, Chunk(g.start, p.pos)));
            Consume(f, s, p, buf[p.pos], |buf| - p.pos) ==
            p.(fields := added + MissingFrom(s, p.columnIdx + 1), hasEscape := false,
               columnStart := p.pos + 1, columnIdx := s.numPartitionKeys, numTuples := p.numTuples + 1,
               rowEnds := p.rowEnds + [p.pos],
               rowDelimOffset := if buf[p.pos] == CR then |buf| - p.pos - 1 else -1)
  {
    AtRowDelim(f, s, buf, p);
    RowEnded(f, s, buf, p);
  }

  lemma GridAtField(f: Format, buf: seq<byte>, i: nat)
    requires i < |buf| && EndsFieldAt(f, buf, i)
    ensures var g := GridUpTo(f, buf, i);
            GridUpTo(f, buf, i + 1) == Grid(g.rows, g.open + [Chunk(g.start, i)], i + 1)
    ensures RowEnds(f, buf, i + 1) == RowEnds(f, buf, i)
  {
  }

  lemma GridAtRow(f: Format, buf: seq<byte>, i: nat)
    requires i < |buf| && EndsRowAt(f, buf, i)
    ensures var g := GridUpTo(f, buf, i);
            GridUpTo(f, buf, i + 1) == Grid(g.rows + [g.open + [Chunk(g.start, i)]], [], i + 1)
    ensures RowEnds(f, buf, i + 1) == RowEnds(f, buf, i) + [i]
  {
  }

  lemma GridAtOther(f: Format, buf: seq<byte>, i: nat)
    requires i < |buf| && !RowBreak(f, buf, i) && !EndsFieldAt(f, buf, i)
    ensures GridUpTo(f, buf, i + 1) == GridUpTo(f, buf, i)
    ensures RowEnds(f, buf, i + 1) == RowEnds(f, buf, i)
  {
  }

  lemma FieldAdded(f: Format, s: Schema, buf: seq<byte>, p: Parse, g: Grid, rowEnds: seq<nat>, q: Parse)
    requires FieldsAre(f, s, buf, p, g, rowEnds) && p.columnIdx == s.numPartitionKeys + |g.open|
    requires q.fields == Keep(s, p.columnIdx, p.fields, Location(f, buf, Chunk(g.start, p.pos)))
    requires q.numTuples == p.numTuples && q.rowEnds == p.rowEnds
    ensures FieldsAre(f, s, buf, q, Grid(g.rows, g.open + [Chunk(g.start, p.pos)], p.pos + 1), rowEnds)
  {
    RowGrows(f, s, buf, g.rows, g.open, Chunk(g.start, p.pos), p.fields);
  }

  lemma FieldFields(f: Format, s: Schema, buf: seq<byte>, p: Parse)
    requires Plain(f) && NoNul(buf) && Means(f, s, buf, p) && p.pos < |buf| && EndsFieldAt(f, buf, p.pos)
    ensures MeansFields(f, s, buf, Next(f, s, buf, p))
  {
    var g := GridUpTo(f, buf, p.pos);
    ConsumedField(f, s, buf, p);
    GridAtField(f, buf, p.pos);
    FieldAdded(f, s, buf, p, g, RowEnds(f, buf, p.pos), Next(f, s, buf, p));
  }

  lemma FieldState(f: Format, s: Schema, buf: seq<byte>, p: Parse)
    requires Plain(f) && NoNul(buf) && MeansState(f, s, buf, p) && p.pos < |buf| && EndsFieldAt(f, buf, p.pos)
    ensures MeansState(f, s, buf, Next(f, s, buf, p))
  {
    ConsumedField(f, s, buf, p);
    BehindDelim(f, buf, p.pos);
    assert !BehindCr(f, buf, p.pos + 1);
  }

  lemma RowAdded(f: Format, s: Schema, buf: seq<byte>, p: Parse, g: Grid, rowEnds: seq<nat>, q: Parse)
    requires FieldsAre(f, s, buf, p, g, rowEnds) && p.columnIdx == s.numPartitionKeys + |g.open|
    requires var added := Keep(s, p.columnIdx, p.fields, Location(f, buf, Chunk(g.start, p.pos)));
             && q.fields == added + MissingFrom(s, p.columnIdx + 1)
             && q.numTuples == p.numTuples + 1 && q.rowEnds == p.rowEnds + [p.pos]
    ensures FieldsAre(f, s, buf, q, Grid(g.rows + [g.open + [Chunk(g.start, p.pos)]], [], p.pos + 1), rowEnds + [p.pos])
  {
    RowCloses(f, s, buf, g.rows, g.open, Chunk(g.start, p.pos), p.fields);
  }

  lemma RowFields(f: Format, s: Schema, buf: seq<byte>, p: Parse)
    requires Plain(f) && NoNul(buf) && Means(f, s, buf, p) && p.pos < |buf| && EndsRowAt(f, buf, p.pos)
    ensures MeansFields(f, s, buf, Next(f, s, buf, p))
  {
    var g := GridUpTo(f, buf, p.pos);
    ConsumedRow(f, s, buf, p);
    GridAtRow(f, buf, p.pos);
    RowAdded(f, s, buf, p, g, RowEnds(f, buf, p.pos), Next(f, s, buf, p));
  }

  lemma RowState(f: Format, s: Schema, buf: seq<byte>, p: Parse)
    requires Plain(f) && NoNul(buf) && MeansState(f, s, buf, p) && p.pos < |buf| && EndsRowAt(f, buf, p.pos)
    ensures MeansState(f, s, buf, Next(f, s, buf, p))
  {
    ConsumedRow(f, s, buf, p);
    BehindDelim(f, buf, p.pos);
  }

  lemma ConsumedLf(f: Format, s: Schema, buf: seq<byte>, p: Parse)
    requires Plain(f) && NoNul(buf) && MeansState(f, s, buf, p) && p.pos < |buf| && JoinedLf(f, buf, p.pos)
    ensures Next(f, s, buf, p) == p.(columnStart := p.columnStart + 1, rowDelimOffset := -1, pos := p.pos + 1)
  {
    BehindDelim(f, buf, p.pos);
    assert Escape(f, p, buf[p.pos]) == p;
  }

  lemma LfMeans(f: Format, s: Schema, buf: seq<byte>, p: Parse)
    requires Plain(f) && NoNul(buf) && Means(f, s, buf, p) && p.pos < |buf| && JoinedLf(f, buf, p.pos)
    ensures Means(f, s, buf, Next(f, s, buf, p))
  {
    ConsumedLf(f, s, buf, p);
    BehindDelim(f, buf, p.pos);
    BehindDelim(f, buf, p.pos - 1);
    LfStart(f, buf, p.pos);
  }

  /** Directly behind a row break, the next chunk starts here. */
  lemma LfStart(f: Format, buf: seq<byte>, i: nat)
    requires i <= |buf| && BehindCr(f, buf, i)
    ensures GridUpTo(f, buf, i).start == i
  {
    assert !JoinedLf(f, buf, i - 1);
  }

  lemma ConsumedOther(f: Format, s: Schema, buf: seq<byte>, p: Parse)
    requires Plain(f) && NoNul(buf) && MeansState(f, s, buf, p) && p.pos < |buf|
    requires !RowBreak(f, buf, p.pos) && !EndsFieldAt(f, buf, p.pos)
    ensures Next(f, s, buf, p) == Escape(f, p, buf[p.pos]).(pos := p.pos + 1)
  {
  }

  lemma OtherFields(f: Format, s: Schema, buf: seq<byte>, p: Parse)
    requires Plain(f) && NoNul(buf) && Means(f, s, buf, p) && p.pos < |buf|
    requires !RowBreak(f, buf, p.pos) && !EndsFieldAt(f, buf, p.pos)
    ensures MeansFields(f, s, buf, Next(f, s, buf, p))
  {
    ConsumedOther(f, s, buf, p);
    GridAtOther(f, buf, p.pos);
  }

  lemma OtherState(f: Format, s: Schema, buf: seq<byte>, p: Parse)
    requires Plain(f) && NoNul(buf) && MeansState(f, s, buf, p) && p.pos < |buf|
    requires !RowBreak(f, buf, p.pos) && !EndsFieldAt(f, buf, p.pos)
    ensures MeansState(f, s, buf, Next(f, s, buf, p))
  {
    ConsumedOther(f, s, buf, p);
    GridAtOther(f, buf, p.pos);
    var g := GridUpTo(f, buf, p.pos);
    assert EscapeIn(f, buf, g.start, p.pos + 1) <==> EscapeIn(f, buf, g.start, p.pos) || buf[p.pos] == f.escapeChar;
    assert !BehindCr(f, buf, p.pos + 1);
  }

  lemma StepMeans(f: Format, s: Schema, buf: seq<byte>, p: Parse)
    requires Plain(f) && NoNul(buf) && p.pos < |buf| && Means(f, s, buf, p)
    ensures Means(f, s, buf, Next(f, s, buf, p))
  {
    if EndsRowAt(f, buf, p.pos) {
      RowFields(f, s, buf, p);
      RowState(f, s, buf, p);
    } else if EndsFieldAt(f, buf, p.pos) {
      FieldFields(f, s, buf, p);
      FieldState(f, s, buf, p);
    } else if JoinedLf(f, buf, p.pos) {
      LfMeans(f, s, buf, p);
    } else {
      OtherFields(f, s, buf, p);
      OtherState(f, s, buf, p);
    }
  }

  lemma {:induction false} ScanMeans(f: Format, s: Schema, buf: seq<byte>, p: Parse)
    requires Plain(f) && NoNul(buf) && p.pos <= |buf| && Means(f, s, buf, p)
    ensures var r := Scan(f, s, buf, -1, p);
            !r.full && r.parse.pos == |buf| && Means(f, s, buf, r.parse)
    decreases |buf| - p.pos
  {
    if p.pos >= |buf| {
    } else {
      StepMeans(f, s, buf, p);
      ScanMeans(f, s, buf, Next(f, s, buf, p));
    }
  }

  predicate Increasing(e: seq<nat>) {
    forall i, j :: 0 <= i < j < |e| ==> e[i] < e[j]
  }

  /** The row ends of a buffer are its row breaks, each '\r\n' counted once, in order. */
  lemma {:induction false} RowEndsExactly(f: Format, buf: seq<byte>, n: nat)
    requires n <= |buf|
    ensures forall i: nat :: i in RowEnds(f, buf, n) <==> i < n && EndsRowAt(f, buf, i)
    ensures Increasing(RowEnds(f, buf, n))
  {
    if n == 0 {
    } else {
      RowEndsExactly(f, buf, n - 1);
      var before := RowEnds(f, buf, n - 1);
      assert forall i :: 0 <= i < |before| ==> before[i] in before;
    }
  }

  lemma {:induction false} NoRows(f: Format, buf: seq<byte>, n: nat)
    requires f.tupleDelim == NUL && n <= |buf|
    ensures GridUpTo(f, buf, n).rows == []
  {
    if n == 0 {
    } else {
      NoRows(f, buf, n - 1);
    }
  }

  lemma ResetMeans(f: Format, s: Schema, buf: seq<byte>)
    ensures Means(f, s, buf, Reset(s))
  {
  }

  lemma ScanFromReset(f: Format, s: Schema, buf: seq<byte>)
    requires Plain(f) && NoNul(buf)
    ensures Enter(buf, Reset(s)) == Reset(s)
    ensures var r := Scan(f, s, buf, -1, Reset(s));
            !r.full && r.parse.pos == |buf| && Means(f, s, buf, r.parse)
  {
    ResetMeans(f, s, buf);
    ScanMeans(f, s, buf, Reset(s));
  }

  /** A format without row delimiter makes the whole buffer one row. */
  lemma OpenFields(f: Format, s: Schema, buf: seq<byte>, open: seq<Chunk>)
    ensures FieldsOf(f, s, buf, [], open) == ProjectChunks(f, s, buf, s.numPartitionKeys, open)
  {
    var chunks := ProjectChunks(f, s, buf, s.numPartitionKeys, open);
    assert [] + chunks == chunks;
  }

  lemma OnlyRow(f: Format, s: Schema, buf: seq<byte>, open: seq<Chunk>, c: Chunk)
    ensures ProjectRow(f, s, buf, open + [c]) ==
            Keep(s, s.numPartitionKeys + |open|, FieldsOf(f, s, buf, [], open), Location(f, buf, c)) +
            MissingFrom(s, s.numPartitionKeys + |open| + 1)
  {
    OpenFields(f, s, buf, open);
    ChunkAppended(f, s, buf, s.numPartitionKeys, open, c);
    var n, row := s.numPartitionKeys, open + [c];
    assert ProjectRow(f, s, buf, row) == ProjectChunks(f, s, buf, n, row) + MissingFrom(s, n + |row|);
  }

  lemma ParseUndelimited(f: Format, s: Schema, buf: seq<byte>, p: Parse)
    requires f.tupleDelim == NUL && p.pos == |buf| && Means(f, s, buf, p)
    ensures var q := EndColumns(s, true, p);
            var g := GridUpTo(f, buf, |buf|);
            q.numTuples == 1 && q.fields == ProjectRow(f, s, buf, g.open + [Chunk(g.start, |buf|)])
  {
    var g := GridUpTo(f, buf, |buf|);
    NoRows(f, buf, |buf|);
    RowEnded(f, s, buf, p);
    assert Unfold(true);
    OnlyRow(f, s, buf, g.open, Chunk(g.start, |buf|));
  }

  /** A whole parse is the projection of the buffer's grid. */
  lemma ParseIsProjection(f: Format, s: Schema, buf: seq<byte>)
    requires Plain(f) && NoNul(buf)
    ensures var r := ScalarParse(f, s, buf, -1, Reset(s));
            var g := GridUpTo(f, buf, |buf|);
            && r.pos == |buf| && r.rowEnds == RowEnds(f, buf, |buf|)
            && (f.tupleDelim != NUL ==> r.numTuples == |g.rows| && r.fields == FieldsOf(f, s, buf, g.rows, g.open))
            && (f.tupleDelim == NUL ==>
                  r.numTuples == 1 && r.fields == ProjectRow(f, s, buf, g.open + [Chunk(g.start, |buf|)]))
  {
    ScanFromReset(f, s, buf);
    assert Unfold(true);
    if f.tupleDelim == NUL {
      ParseUndelimited(f, s, buf, Scan(f, s, buf, -1, Reset(s)).parse);
    }
  }
}
