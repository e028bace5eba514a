/** The configuration of a delimited text file and the scalar (one character at a
    time) meaning of parsing it: be/src/exec/delimited-text-parser.cc, lines 110-198.

    Pointers of the source become offsets into one buffer.  The output arrays
    become sequences that grow by one element where the source writes one.
 */
module TextFormat {
  import opened Bytes

  const NUL: byte := 0
  const LF: byte := 10
  const CR: byte := 13

  /** The four special characters; NUL means "not used". */
  datatype Format = Format(tupleDelim: byte, fieldDelim: byte, itemDelim: byte, escapeChar: byte) {

    predicate IsTupleDelim(c: byte) {
      tupleDelim != NUL && (c == tupleDelim || (tupleDelim == LF && c == CR))
    }

    predicate IsFieldDelim(c: byte) {
      c == fieldDelim || c == itemDelim
    }

    predicate IsDelim(c: byte) {
      IsTupleDelim(c) || IsFieldDelim(c)
    }

    /** What the constructor checks of its callers. */
    predicate Legal() {
      && (escapeChar == NUL || escapeChar !in {tupleDelim, fieldDelim, itemDelim})
      && (tupleDelim != NUL || fieldDelim != NUL || itemDelim != NUL)
    }

    /** What the vectorised search additionally needs: it cannot look for an item
        delimiter without a field delimiter, and one character must not have two roles. */
    predicate Vectorizable() {
      && (fieldDelim == NUL ==> itemDelim == NUL)
      && (tupleDelim != NUL ==> fieldDelim != tupleDelim && itemDelim != tupleDelim)
      && (tupleDelim == LF ==> fieldDelim != CR && itemDelim != CR && escapeChar != CR)
    }
  }

  /** Columns 0..numPartitionKeys are not in the file; materialized has one entry per column. */
  datatype Schema = Schema(numPartitionKeys: nat, materialized: seq<bool>)

  /** Missing is a column absent from a short row: its length is 0 and its start means nothing.
      A negative length marks a field that contains escape characters. */
  datatype FieldLocation = Field(start: int, len: int) | Missing

  /** The parser's fields together with the in/out arguments of one parse. */
  datatype Parse = Parse(
    pos: nat,               // *byte_buffer_ptr
    columnStart: int,       // *next_column_start
    columnIdx: nat,
    hasEscape: bool,        // current_column_has_escape_
    lastIsEscape: bool,     // last_char_is_escape_
    rowDelimOffset: int,    // last_row_delim_offset_
    numTuples: nat,
    fields: seq<FieldLocation>,
    rowEnds: seq<nat>)

  predicate NoNul(buf: seq<byte>) {
    forall i :: 0 <= i < |buf| ==> buf[i] != NUL
  }

  predicate Returned(s: Schema, columnIdx: nat) {
    columnIdx < |s.materialized| && s.materialized[columnIdx]
  }

  /** The located field is kept if its column is materialized. */
  function Keep(s: Schema, columnIdx: nat, fields: seq<FieldLocation>, location: FieldLocation): seq<FieldLocation> {
    if Returned(s, columnIdx) then fields + [location] else fields
  }

  function AddColumn(s: Schema, escapes: bool, p: Parse, len: int): Parse {
    var location := Field(p.columnStart, if escapes && p.hasEscape then -len else len);
    p.(fields := Keep(s, p.columnIdx, p.fields, location),
       hasEscape := if escapes then false else p.hasEscape,
       columnStart := p.columnStart + len + 1,
       columnIdx := p.columnIdx + 1)
  }

  /** One Missing per materialized column from columnIdx on. */
  function MissingFrom(s: Schema, columnIdx: nat): seq<FieldLocation>
    decreases |s.materialized| - columnIdx
  {
    if columnIdx >= |s.materialized| then []
    else (if s.materialized[columnIdx] then [Missing] else []) + MissingFrom(s, columnIdx + 1)
  }

  function FillColumns(s: Schema, p: Parse): Parse {
    p.(fields := p.fields + MissingFrom(s, p.columnIdx),
       columnIdx := if p.columnIdx < |s.materialized| then |s.materialized| else p.columnIdx)
  }

  /** A row ends in front of p.pos: its last column is added and the row is padded. */
  function EndColumns(s: Schema, escapes: bool, p: Parse): Parse {
    FillColumns(s, AddColumn(s, escapes, p, p.pos - p.columnStart))
      .(columnIdx := s.numPartitionKeys, numTuples := p.numTuples + 1)
  }

  function EndRow(s: Schema, escapes: bool, p: Parse): Parse {
    EndColumns(s, escapes, p).(rowEnds := p.rowEnds + [p.pos])
  }

  /** The escape flags after character c. */
  function Escape(f: Format, p: Parse, c: byte): Parse {
    p.(hasEscape := p.hasEscape || c == f.escapeChar,
       lastIsEscape := c == f.escapeChar && !p.lastIsEscape)
  }

  predicate EndsRow(f: Format, p: Parse, c: byte) {
    !p.lastIsEscape && f.IsTupleDelim(c)
  }

  /** The '\n' of a '\r\n' whose '\r' has already ended the row. */
  predicate SkipsLf(p: Parse, remaining: int, c: byte) {
    p.rowDelimOffset == remaining && c == LF
  }

  /** The scalar loop's treatment of character c with `remaining` characters left,
      c included; the position does not move yet. */
  function Consume(f: Format, s: Schema, p: Parse, c: byte, remaining: int): Parse {
    var q := Escape(f, p, c);
    if EndsRow(f, p, c) then
      (if SkipsLf(p, remaining, c) then q.(columnStart := q.columnStart + 1) else EndRow(s, true, q))
        .(rowDelimOffset := if c == CR then remaining - 1 else -1)
    else if !p.lastIsEscape && f.IsFieldDelim(c) then
      AddColumn(s, true, q, q.pos - q.columnStart)
    else
      q
  }

  /** The scalar loop: line 137 to line 185. */
  datatype Stop = Stop(parse: Parse, full: bool)

  function Scan(f: Format, s: Schema, buf: seq<byte>, maxTuples: int, p: Parse): Stop
    decreases |buf| - p.pos
  {
    if p.pos >= |buf| then Stop(p, false)
    else
      var c, remaining := buf[p.pos], |buf| - p.pos;
      var q := Consume(f, s, p, c, remaining).(pos := p.pos + 1);
      if EndsRow(f, p, c) && q.numTuples == maxTuples then
        Stop(if q.rowDelimOffset == remaining - 1 then q.(rowDelimOffset := 0) else q, true)
      else
        Scan(f, s, buf, maxTuples, q)
  }

  /** p one character further. */
  function Next(f: Format, s: Schema, buf: seq<byte>, p: Parse): (q: Parse)
    requires p.pos < |buf|
    ensures q.pos == p.pos + 1
  {
    Consume(f, s, p, buf[p.pos], |buf| - p.pos).(pos := p.pos + 1)
  }

  /** The loop goes on, unless the character fills the batch. */
  lemma ScanNext(f: Format, s: Schema, buf: seq<byte>, maxTuples: int, p: Parse)
    requires p.pos < |buf| && !(EndsRow(f, p, buf[p.pos]) && Next(f, s, buf, p).numTuples == maxTuples)
    ensures Scan(f, s, buf, maxTuples, p) == Scan(f, s, buf, maxTuples, Next(f, s, buf, p))
  {
  }

  /** The entry of a call, line 115 to line 122. */
  function Enter(buf: seq<byte>, p: Parse): Parse {
    p.(columnStart := p.pos,
       rowDelimOffset := if p.rowDelimOffset == 0 then |buf| - p.pos else -1)
  }

  /** The exit of a call: a format without row delimiter ends its row with the buffer. */
  function Leave(f: Format, s: Schema, r: Stop): Parse {
    if !r.full && f.tupleDelim == NUL then EndColumns(s, true, r.parse) else r.parse
  }

  /** ParseFieldLocations without the vector instructions. */
  function ScalarParse(f: Format, s: Schema, buf: seq<byte>, maxTuples: int, p: Parse): Parse {
    var q := Enter(buf, p);
    if q.numTuples == maxTuples then q else Leave(f, s, Scan(f, s, buf, maxTuples, q))
  }

  /** The parser's state when nothing has been parsed yet. */
  function Reset(s: Schema): Parse {
    Parse(0, 0, s.numPartitionKeys, false, false, -1, 0, [], [])
  }

  /** The escape flags mean nothing, and stay off, when there is no escape character. */
  predicate Coherent(f: Format, p: Parse) {
    f.escapeChar == NUL ==> !p.hasEscape && !p.lastIsEscape
  }

  /** The flag lastIsEscape after the characters from..upTo. */
  function EscapeAfter(f: Format, buf: seq<byte>, from: nat, upTo: nat, initially: bool): bool
    requires from <= upTo <= |buf|
    decreases upTo
  {
    if upTo == from then initially
    else buf[upTo - 1] == f.escapeChar && !EscapeAfter(f, buf, from, upTo - 1, initially)
  }

  predicate EscapeIn(f: Format, buf: seq<byte>, from: nat, upTo: nat)
    requires from <= upTo <= |buf|
  {
    exists i :: from <= i < upTo && buf[i] == f.escapeChar
  }

  // ----- which characters are escaped -----

  /** How many escape characters stand directly before position i. */
  function EscapeRun(f: Format, buf: seq<byte>, i: nat): nat
    requires i <= |buf|
  {
    if i > 0 && buf[i - 1] == f.escapeChar then 1 + EscapeRun(f, buf, i - 1) else 0
  }

  predicate Active(f: Format, buf: seq<byte>, i: nat)
    requires i <= |buf|
  {
    EscapeRun(f, buf, i) % 2 == 0
  }

  /** Counting backwards agrees with toggling forwards. */
  lemma {:induction false} ActiveIsUnescaped(f: Format, buf: seq<byte>, i: nat)
    requires i <= |buf|
    ensures Active(f, buf, i) == !EscapeAfter(f, buf, 0, i, false)
  {
    if i == 0 {
    } else {
      ActiveIsUnescaped(f, buf, i - 1);
    }
  }

  /** A stretch without active delimiter only moves the position and the escape flags. */
  lemma {:induction false} QuietStretch(f: Format, s: Schema, buf: seq<byte>, maxTuples: int, p: Parse, n: nat)
    requires p.pos <= n <= |buf|
    requires forall i :: p.pos <= i < n && f.IsDelim(buf[i]) ==> EscapeAfter(f, buf, p.pos, i, p.lastIsEscape)
    ensures Scan(f, s, buf, maxTuples, p) ==
            Scan(f, s, buf, maxTuples,
                 p.(pos := n, hasEscape := p.hasEscape || EscapeIn(f, buf, p.pos, n),
                    lastIsEscape := EscapeAfter(f, buf, p.pos, n, p.lastIsEscape)))
    decreases n - p.pos
  {
    if p.pos == n {
      assert p.(pos := n, hasEscape := p.hasEscape || EscapeIn(f, buf, p.pos, n),
                lastIsEscape := EscapeAfter(f, buf, p.pos, n, p.lastIsEscape)) == p;
    } else {
      var c := buf[p.pos];
      assert f.IsDelim(c) ==> EscapeAfter(f, buf, p.pos, p.pos, p.lastIsEscape);
      var q := Escape(f, p, c).(pos := p.pos + 1);
      assert Consume(f, s, p, c, |buf| - p.pos).(pos := p.pos + 1) == q;
      forall i | p.pos + 1 <= i <= n
        ensures EscapeAfter(f, buf, p.pos, i, p.lastIsEscape) == EscapeAfter(f, buf, q.pos, i, q.lastIsEscape)
      {
        EscapeAfterSplit(f, buf, p.pos, q.pos, i, p.lastIsEscape);
      }
      QuietStretch(f, s, buf, maxTuples, q, n);
      assert EscapeIn(f, buf, p.pos, n) <==> c == f.escapeChar || EscapeIn(f, buf, q.pos, n);
    }
  }

  lemma {:induction false} EscapeAfterSplit(f: Format, buf: seq<byte>, from: nat, mid: nat, upTo: nat, initially: bool)
    requires from <= mid <= upTo <= |buf|
    ensures EscapeAfter(f, buf, from, upTo, initially) ==
            EscapeAfter(f, buf, mid, upTo, EscapeAfter(f, buf, from, mid, initially))
    decreases upTo
  {
    if mid >= upTo {
    } else {
      EscapeAfterSplit(f, buf, from, mid, upTo - 1, initially);
    }
  }

  /** Every parse keeps the escape flags meaningful. */
  lemma {:induction false} ScanCoherent(f: Format, s: Schema, buf: seq<byte>, maxTuples: int, p: Parse)
    requires NoNul(buf) && Coherent(f, p)
    ensures Coherent(f, Scan(f, s, buf, maxTuples, p).parse)
    decreases |buf| - p.pos
  {
    if p.pos >= |buf| {
    } else {
      ScanCoherent(f, s, buf, maxTuples, Consume(f, s, p, buf[p.pos], |buf| - p.pos).(pos := p.pos + 1));
    }
  }

  lemma ParseCoherent(f: Format, s: Schema, buf: seq<byte>, maxTuples: int, p: Parse)
    requires NoNul(buf) && Coherent(f, p)
    ensures Coherent(f, ScalarParse(f, s, buf, maxTuples, p))
  {
    ScanCoherent(f, s, buf, maxTuples, Enter(buf, p));
  }
}
