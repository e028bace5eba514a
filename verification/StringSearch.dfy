/** Substring search with a Horspool shift and a 64-bit Bloom mask:
    be/src/runtime/string-search.h.
 */
module StringSearch {
  import opened Bytes

  /** pattern occurs in text at i. */
  predicate OccursAt(text: seq<byte>, pattern: seq<byte>, i: int) {
    0 <= i && i + |pattern| <= |text| && forall j :: 0 <= j < |pattern| ==> pattern[j] == text[i + j]
  }

  predicate NoneBefore(text: seq<byte>, pattern: seq<byte>, i: int) {
    forall k :: 0 <= k < i ==> !OccursAt(text, pattern, k)
  }

  class Searcher {
    const pattern: seq<byte>
    const mask: set<int>      // the set bits of mask_
    const skip: int

    ghost predicate Valid() {
      |pattern| > 1 ==>
        && (forall c :: c in pattern ==> c % 64 in mask)
        && 0 <= skip < |pattern| - 1
        && (forall j :: |pattern| - 1 - skip <= j < |pattern| - 1 ==> pattern[j] != pattern[|pattern| - 1])
    }

    constructor (p: seq<byte>)
      ensures pattern == p && Valid()
    {
      var bits: set<int> := {};
      var shift := 0;
      if |p| > 1 {
        var last := |p| - 1;
        shift := last - 1;
        for i := 0 to last
          invariant forall j :: 0 <= j < i ==> p[j] % 64 in bits
          invariant 0 <= shift < last
          invariant forall j :: last - shift <= j < i ==> p[j] != p[last]
        {
          bits := bits + {p[i] % 64};
          if p[i] == p[last] {
            shift := last - i - 1;
          }
        }
        bits := bits + {p[last] % 64};
      }
      pattern, mask, skip := p, bits, shift;
    }

    /** The first occurrence of the pattern in text, or -1.  Behind the end of the text the
        source reads one arbitrary byte, which does not matter. */
    method Search(text: seq<byte>) returns (offset: int)
      requires Valid()
      ensures pattern == [] ==> offset == -1
      ensures pattern != [] && offset == -1 ==> forall k :: !OccursAt(text, pattern, k)
      ensures offset != -1 ==> OccursAt(text, pattern, offset) && NoneBefore(text, pattern, offset)
    {
      var m, w := |pattern|, |text| - |pattern|;
      if m == 0 {
        return -1;
      }
      if m == 1 {
        offset := FindByte(text, pattern[0]);
        return;
      }
      var i := 0;
      while i <= w
        invariant 0 <= i && NoneBefore(text, pattern, i)
        decreases w - i
      {
        var next: byte := *;
        if i + m < |text| {
          next := text[i + m];
        }
        if text[i + m - 1] == pattern[m - 1] {
          var j := MatchLength(text, i);
          if j == m - 1 {
            return i;
          }
          assert pattern[j] != text[i + j];
          if next % 64 !in mask {
            NoneCovers(text, i, next);
            i := i + m;
          } else {
            NoneShifts(text, i);
            i := i + skip;
          }
        } else {
          assert pattern[m - 1] != text[i + m - 1];
          if next % 64 !in mask {
            NoneCovers(text, i, next);
            i := i + m;
          }
        }
        i := i + 1;
      }
      return -1;
    }

    method FindByte(text: seq<byte>, c: byte) returns (offset: int)
      requires pattern == [c]
      ensures offset == -1 ==> forall k :: !OccursAt(text, pattern, k)
      ensures offset != -1 ==> OccursAt(text, pattern, offset) && NoneBefore(text, pattern, offset)
    {
      for i := 0 to |text|
        invariant NoneBefore(text, pattern, i)
      {
        assert pattern[0] == c;
        if text[i] == c {
          return i;
        }
      }
      return -1;
    }

    /** How many of the first |pattern| - 1 bytes match at i. */
    method MatchLength(text: seq<byte>, i: nat) returns (j: nat)
      requires 0 < |pattern| && i + |pattern| <= |text|
      ensures j < |pattern| && forall k :: 0 <= k < j ==> text[i + k] == pattern[k]
      ensures j < |pattern| - 1 ==> text[i + j] != pattern[j]
    {
      j := 0;
      while j < |pattern| - 1
        invariant 0 <= j < |pattern| && forall k :: 0 <= k < j ==> text[i + k] == pattern[k]
      {
        if text[i + j] != pattern[j] {
          break;
        }
        j := j + 1;
      }
    }

    /** A byte whose mask bit is clear is not in the pattern: no occurrence covers it. */
    lemma NoneCovers(text: seq<byte>, i: nat, next: byte)
      requires Valid() && |pattern| > 1 && next % 64 !in mask
      requires i + |pattern| <= |text| && (i + |pattern| < |text| ==> next == text[i + |pattern|])
      ensures forall k :: i < k <= i + |pattern| ==> !OccursAt(text, pattern, k)
    {
      forall k | i < k <= i + |pattern| ensures !OccursAt(text, pattern, k) {
        if k + |pattern| <= |text| {
          var at := i + |pattern| - k;
          assert pattern[at] in pattern;
          assert pattern[at] != text[k + at];
        }
      }
    }

    /** The last byte matches, so an occurrence further on needs an equal byte before it. */
    lemma NoneShifts(text: seq<byte>, i: nat)
      requires Valid() && |pattern| > 1 && i + |pattern| <= |text|
      requires text[i + |pattern| - 1] == pattern[|pattern| - 1]
      ensures forall k :: i < k <= i + skip ==> !OccursAt(text, pattern, k)
    {
      forall k | i < k <= i + skip ensures !OccursAt(text, pattern, k) {
        if k + |pattern| <= |text| {
          var at := i + |pattern| - 1 - k;
          assert pattern[at] != text[k + at];
        }
      }
    }
  }
}
