/** The byte stream of one scan range: be/src/exec/scanner-context.cc and
    be/src/exec/scanner-context.inline.h.  The file arrives in io buffers of arbitrary
    sizes; a request that does not fit into one is stitched together in a boundary buffer.
 */
module ScannerStream {
  import opened Bytes

  /** How a file is delivered to the stream of one range: the buffer that starts at
      offset x ends at ends[x].  Buffers do not run past the end of the range. */
  datatype Delivery = Delivery(file: seq<byte>, start: nat, end: nat, ends: seq<nat>) {
    ghost predicate Valid() {
      && start <= end <= |file| && |ends| == |file|
      && (forall x :: 0 <= x < |file| ==> x < ends[x] <= |file|)
      && (forall x :: 0 <= x < end ==> ends[x] <= end)
    }
  }

  /** The end of the fetched bytes after fetching buffers from u on until `target` is reached. */
  ghost function FetchTo(d: Delivery, u: nat, target: int): (u': nat)
    requires d.Valid() && u <= |d.file|
    ensures u <= u' <= |d.file| && (u' >= target || u' == |d.file|)
    decreases |d.file| - u
  {
    if u >= target || u == |d.file| then u else FetchTo(d, d.ends[u], target)
  }

  /** The two buffers hold the bytes of the file from pos on, in this order. */
  predicate Held(f: seq<byte>, pos: nat, boundary: seq<byte>, io: seq<byte>) {
    var middle := pos + |boundary|;
    middle + |io| <= |f| && boundary == f[pos..middle] && io == f[middle..middle + |io|]
  }

  /** Moving the first n bytes of the io buffer into the boundary buffer. */
  lemma HeldStitched(f: seq<byte>, pos: nat, boundary: seq<byte>, io: seq<byte>, n: nat)
    requires Held(f, pos, boundary, io) && n <= |io|
    ensures Held(f, pos, boundary + io[..n], io[n..])
  {
    var middle := pos + |boundary|;
    assert io[..n] == f[middle..middle + n];
    assert f[pos..middle] + f[middle..middle + n] == f[pos..middle + n];
    assert io[n..] == f[middle + n..middle + |io|];
  }

  /** Returning the first n bytes of the boundary buffer, or of the io buffer. */
  lemma HeldReturned(f: seq<byte>, pos: nat, boundary: seq<byte>, io: seq<byte>, n: nat)
    requires Held(f, pos, boundary, io)
    ensures n <= |boundary| ==> boundary[..n] == f[pos..pos + n] && Held(f, pos + n, boundary[n..], io)
    ensures boundary == [] && n <= |io| ==> io[..n] == f[pos..pos + n] && Held(f, pos + n, [], io[n..])
  {
  }

  function Min(a: int, b: int): int {
    if a < b then a else b
  }

  function Max(a: int, b: int): int {
    if a < b then b else a
  }

  class Stream {
    const delivery: Delivery
    var pos: nat              // file_offset(): the next byte to return
    var boundary: seq<byte>   // what is left of the boundary buffer
    var io: seq<byte>         // what is left of the current io buffer
    var fromBoundary: bool    // output_buffer_pos_ points into the boundary buffer

    ghost predicate Buffered()
      reads this
    {
      delivery.Valid() && delivery.start <= pos && Held(delivery.file, pos, boundary, io)
    }

    ghost predicate Valid()
      reads this
    {
      Buffered() && (!fromBoundary ==> boundary == []) && InRange()
    }

    /** An io buffer that holds bytes of the range ends with the range at the latest. */
    ghost predicate InRange()
      reads this
    {
      io != [] && pos + |boundary| < delivery.end ==> Fetched() <= delivery.end
    }

    /** The end of the bytes that have been read from the file. */
    ghost function Fetched(): nat
      reads this
    {
      pos + |boundary| + |io|
    }

    constructor (d: Delivery)
      requires d.Valid()
      ensures Valid() && delivery == d && pos == d.start && boundary == [] && io == []
    {
      delivery, pos, boundary, io, fromBoundary := d, d.start, [], [], false;
    }

    predicate Eosr()
      reads this
    {
      pos >= delivery.end
    }

    predicate Eof()
      reads this
    {
      pos == |delivery.file|
    }

    function BytesLeft(): int
      reads this
    {
      delivery.end - pos
    }

    /** Fetches the io buffer that follows the boundary buffer; an empty one at end of file. */
    method GetNextBuffer()
      requires delivery.Valid() && delivery.start <= pos
      requires pos + |boundary| <= |delivery.file| && boundary == delivery.file[pos..pos + |boundary|]
      modifies this`io
      ensures Buffered() && InRange()
      ensures pos + |boundary| < |delivery.file| ==> Fetched() == delivery.ends[pos + |boundary|]
      ensures pos + |boundary| == |delivery.file| ==> io == []
    {
      var offset := pos + |boundary|;
      if offset == |delivery.file| {
        io := [];
      } else {
        io := delivery.file[offset..delivery.ends[offset]];
      }
    }

    /** The first n bytes of the boundary buffer. */
    method FromBoundary(n: nat, peek: bool) returns (buffer: seq<byte>)
      requires Buffered() && n <= |boundary|
      modifies this`pos, this`boundary
      ensures Buffered() && Fetched() == old(Fetched()) && (old(InRange()) ==> InRange())
      ensures |buffer| == n && buffer == delivery.file[old(pos)..old(pos) + n]
      ensures pos == old(pos) + (if peek then 0 else n)
      ensures |boundary| == old(|boundary|) - (if peek then 0 else n)
    {
      HeldReturned(delivery.file, pos, boundary, io, n);
      buffer := boundary[..n];
      if !peek {
        boundary := boundary[n..];
        pos := pos + n;
      }
    }

    /** The first n bytes of the io buffer. */
    method FromIo(n: nat, peek: bool) returns (buffer: seq<byte>)
      requires Buffered() && boundary == [] && n <= |io|
      modifies this`pos, this`io
      ensures Buffered() && Fetched() == old(Fetched()) && (old(InRange()) ==> InRange())
      ensures |buffer| == n && buffer == delivery.file[old(pos)..old(pos) + n]
      ensures pos == old(pos) + (if peek then 0 else n)
    {
      HeldReturned(delivery.file, pos, boundary, io, n);
      buffer := io[..n];
      if !peek {
        io := io[n..];
        pos := pos + n;
      }
    }

    /** The first available bytes within the range: the rest of the boundary buffer, or else
        the rest of the current io buffer, or else the next one. */
    method GetBuffer(peek: bool) returns (buffer: seq<byte>)
      requires Valid()
      modifies this
      ensures Valid() && pos == old(pos) + (if peek then 0 else |buffer|)
      ensures old(pos) + |buffer| <= |delivery.file| && buffer == delivery.file[old(pos)..old(pos) + |buffer|]
      ensures old(pos) >= delivery.end ==> buffer == [] && boundary == old(boundary) && io == old(io)
      ensures old(pos) < delivery.end && old(boundary) != [] ==>
                |buffer| == Min(|old(boundary)|, delivery.end - old(pos)) && Fetched() == old(Fetched())
                && |boundary| == |old(boundary)| - (pos - old(pos))
      ensures old(pos) < delivery.end && old(boundary) == [] ==>
                && boundary == []
                && Fetched() == (if old(io) == [] then delivery.ends[old(pos)] else old(Fetched()))
                && old(pos) + |buffer| == Fetched()
    {
      if Eosr() {
        return [];
      }
      if boundary != [] {
        buffer := FromBoundary(Min(|boundary|, BytesLeft()), peek);
        return;
      }
      if io == [] {
        GetNextBuffer();
      }
      buffer := FromIo(|io|, peek);
    }

    /** Up to `requested` bytes from the current position, fewer only at end of file. */
    method GetBytes(requested: nat, peek: bool) returns (buffer: seq<byte>)
      requires Valid()
      modifies this
      ensures Valid()
      ensures |buffer| == Min(requested, |delivery.file| - old(pos))
      ensures buffer == delivery.file[old(pos)..old(pos) + |buffer|]
      ensures pos == old(pos) + (if peek then 0 else |buffer|)
      ensures Fetched() == FetchTo(delivery, old(Fetched()), old(pos) + requested)
      ensures peek && 0 < old(|boundary| + |io|) < requested ==> |boundary| == |buffer|
      ensures peek && requested <= old(|boundary|) ==> boundary == old(boundary)
      ensures peek && 0 < old(|boundary|) < requested ==> |boundary| == |buffer|
      ensures !peek && old(boundary) == [] ==> boundary == []
      ensures !peek && requested <= old(|boundary|) ==> |boundary| == old(|boundary|) - requested
    {
      if requested == 0 {
        return [];
      }
      if fromBoundary {
        if requested <= |boundary| {
          buffer := FromBoundary(requested, peek);
          return;
        }
      } else if requested <= |io| {
        buffer := FromIo(requested, peek);
        return;
      }
      buffer := GetBytesInternal(requested, peek);
    }

    /** The rest of the io buffer moves into the boundary buffer, and the next one is fetched. */
    method Append()
      requires Buffered()
      modifies this`boundary, this`io
      ensures Buffered() && InRange()
      ensures pos + |boundary| == old(Fetched())
      ensures Fetched() == if old(Fetched()) == |delivery.file| then old(Fetched()) else delivery.ends[old(Fetched())]
    {
      HeldStitched(delivery.file, pos, boundary, io, |io|);
      assert io[..|io|] == io;
      boundary := boundary + io;
      GetNextBuffer();
    }

    /** The rest of the io buffer moves into the boundary buffer as often as another io buffer
        is needed for `requested` bytes. */
    method Stitch(requested: nat)
      requires Buffered() && InRange() && |boundary| < requested
      modifies this`boundary, this`io
      ensures Buffered() && InRange() && |boundary| < requested
      ensures requested <= |boundary| + |io| || (io == [] && pos + |boundary| == |delivery.file|)
      ensures Fetched() == FetchTo(delivery, old(Fetched()), pos + requested)
      ensures |boundary| >= old(|boundary|)
      ensures old(|boundary| + |io|) < requested ==> |boundary| >= old(|boundary| + |io|)
    {
      while requested > |boundary| + |io|
        invariant Buffered() && InRange() && |boundary| < requested
        invariant FetchTo(delivery, Fetched(), pos + requested) == FetchTo(delivery, old(Fetched()), pos + requested)
        invariant Fetched() >= old(Fetched()) && |boundary| >= old(|boundary|)
        invariant Fetched() > old(Fetched()) ==> |boundary| >= old(|boundary| + |io|)
        decreases |delivery.file| - Fetched()
      {
        Append();
        if io == [] {
          break;
        }
      }
    }

    /** The slow path. */
    method GetBytesInternal(requested: nat, peek: bool) returns (buffer: seq<byte>)
      requires Valid() && |boundary| < requested
      modifies this
      ensures Valid()
      ensures |buffer| == Min(requested, |delivery.file| - old(pos))
      ensures buffer == delivery.file[old(pos)..old(pos) + |buffer|]
      ensures pos == old(pos) + (if peek then 0 else |buffer|)
      ensures Fetched() == FetchTo(delivery, old(Fetched()), old(pos) + requested)
      ensures peek && 0 < old(|boundary| + |io|) < requested ==> |boundary| == |buffer|
      ensures peek && old(boundary) != [] ==> |boundary| == |buffer|
      ensures !peek ==> boundary == []
    {
      Stitch(requested);
      buffer := Take(requested, peek);
    }

    /** Returns the requested bytes, or all that are left of the file, after stitching. */
    method Take(requested: nat, peek: bool) returns (buffer: seq<byte>)
      requires Buffered() && InRange() && |boundary| < requested
      requires requested <= |boundary| + |io| || (io == [] && pos + |boundary| == |delivery.file|)
      modifies this
      ensures Valid() && Fetched() == old(Fetched())
      ensures |buffer| == Min(requested, |delivery.file| - old(pos))
      ensures buffer == delivery.file[old(pos)..old(pos) + |buffer|]
      ensures pos == old(pos) + (if peek then 0 else |buffer|)
      ensures peek && old(boundary) != [] ==> |boundary| == |buffer|
      ensures !peek ==> boundary == []
    {
      var n := Min(|io|, requested - |boundary|);
      if boundary == [] {
        fromBoundary := false;
        buffer := FromIo(n, peek);
      } else {
        HeldStitched(delivery.file, pos, boundary, io, n);
        boundary := boundary + io[..n];
        io := io[n..];
        fromBoundary := true;
        buffer := FromBoundary(|boundary|, peek);
      }
    }

    /** Skips `length` bytes; false if the file ends before that. */
    method SkipBytes(length: nat) returns (ok: bool)
      requires Valid()
      modifies this
      ensures Valid() && ok == (old(pos) + length <= |delivery.file|)
      ensures pos == Min(old(pos) + length, |delivery.file|)
      ensures Fetched() == FetchTo(delivery, old(Fetched()), old(pos) + length)
      ensures old(boundary) == [] ==> boundary == []
      ensures length <= old(|boundary|) ==> |boundary| == old(|boundary|) - length
    {
      var buffer := GetBytes(length, false);
      ok := |buffer| == length;
    }
  }
}
