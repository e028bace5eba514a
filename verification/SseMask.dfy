/** The 16-bit masks of the vectorised text search: be/src/util/sse-util.h and
    ProcessEscapeMask in be/src/exec/delimited-text-parser.inline.h.
    A uint16_t is the sequence of its sixteen bits, the least significant one first.
 */
module SseMask {
  import opened Bytes
  import opened TextFormat

  const WIDTH := 16

  type Mask = m: seq<bool> | |m| == 16 witness seq(16, _ => false)

  function And(a: Mask, b: Mask): Mask {
    seq(WIDTH, i requires 0 <= i < WIDTH => a[i] && b[i])
  }

  function Or(a: Mask, b: Mask): Mask {
    seq(WIDTH, i requires 0 <= i < WIDTH => a[i] || b[i])
  }

  function Not(a: Mask): Mask {
    seq(WIDTH, i requires 0 <= i < WIDTH => !a[i])
  }

  /** a << 1, whose lowest bit is 0. */
  function ShiftUp(a: Mask): Mask {
    [false] + a[..WIDTH - 1]
  }

  /** a >> 1, whose highest bit is 0. */
  function ShiftDown(a: Mask): Mask {
    a[1..] + [false]
  }

  const ZERO: Mask := seq(WIDTH, _ => false)
  const ONES: Mask := seq(WIDTH, _ => true)

  /** SSE_BITMASK[i]. */
  function Bitmask(i: nat): Mask
    requires i < WIDTH
  {
    seq(WIDTH, j => i == j)
  }

  predicate NonZero(m: Mask) {
    exists i :: 0 <= i < WIDTH && m[i]
  }

  /** Libc's ffs, less one: the index of the lowest set bit. */
  function FirstBit(m: Mask, from: nat := 0): (n: nat)
    requires exists i :: from <= i < WIDTH && m[i]
    ensures from <= n < WIDTH && m[n]
    ensures forall i :: from <= i < n ==> !m[i]
    decreases WIDTH - from
  {
    if m[from] then from else FirstBit(m, from + 1)
  }

  /** The number of leading characters of a register: up to its first NUL. */
  function ImplicitLength(reg: seq<byte>): (n: nat)
    ensures n <= |reg|
    ensures forall i :: 0 <= i < n ==> reg[i] != NUL
    ensures n < |reg| ==> reg[n] == NUL
  {
    if reg == [] || reg[0] == NUL then 0 else 1 + ImplicitLength(reg[1..])
  }

  /** _mm_cmpistrm in STRCHR_MODE: which haystack characters occur in the needle, both
      registers being read up to their first NUL only. */
  function Cmpistrm(needle: seq<byte>, haystack: seq<byte>): Mask
    requires |haystack| == WIDTH
  {
    var wanted := needle[..ImplicitLength(needle)];
    var len := ImplicitLength(haystack);
    seq(WIDTH, i requires 0 <= i < WIDTH => i < len && haystack[i] in wanted)
  }

  /** _mm_cmpestrm in STRCHR_MODE, with explicit lengths: NUL is a character like any other. */
  function Cmpestrm(needle: seq<byte>, haystack: seq<byte>): Mask
    requires |haystack| == WIDTH
  {
    seq(WIDTH, i requires 0 <= i < WIDTH => haystack[i] in needle)
  }

  /** Is the character at bit i escaped, given the positions of all escape characters? */
  function Escaped(escapes: Mask, initially: bool, i: nat): bool
    requires i <= WIDTH
  {
    if i == 0 then initially else escapes[i - 1] && !Escaped(escapes, initially, i - 1)
  }

  /** Removes the escaped delimiters from a block's delimiter mask and carries the
      escape flag into the next block. */
  method ProcessEscapeMask(escapes: Mask, lastIsEscape: bool, delims: Mask)
    returns (lastIsEscape': bool, delims': Mask)
    ensures lastIsEscape' == Escaped(escapes, lastIsEscape, WIDTH)
    ensures forall i :: 0 <= i < WIDTH ==> (delims'[i] <==> delims[i] && !Escaped(escapes, lastIsEscape, i))
  {
    var mask := escapes;
    var escapeNext := lastIsEscape;
    for i := 0 to WIDTH
      invariant escapeNext == Escaped(escapes, lastIsEscape, i)
      invariant forall j :: 0 <= j < i ==> mask[j] == Escaped(escapes, lastIsEscape, j + 1)
      invariant forall j :: i <= j < WIDTH ==> mask[j] == escapes[j]
    {
      if escapeNext {
        mask := And(mask, Not(Bitmask(i)));
      }
      escapeNext := mask[i];
    }
    lastIsEscape' := mask[WIDTH - 1];
    mask := Or(ShiftUp(mask), if lastIsEscape then Bitmask(0) else ZERO);
    delims' := And(delims, Not(mask));
  }
}
