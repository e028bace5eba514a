/** The scanner of one range of a file with sync markers: be/src/exec/base-sequence-scanner.cc.
 */
module SequenceScanner {
  import opened Bytes
  import opened ScannerStream
  import opened SyncSkip
  import Search = StringSearch

  /** No marker starts from a up to b. */
  predicate NoSync(file: seq<byte>, sync: seq<byte>, a: int, b: int) {
    forall k :: a <= k < b ==> !SyncAt(file, sync, k)
  }

  /** The first marker in a buffer ends at offset; -1 if there is none. */
  ghost predicate FirstIn(buffer: seq<byte>, sync: seq<byte>, offset: int) {
    if offset == -1 then forall k :: !SyncAt(buffer, sync, k)
    else
      && |sync| <= offset <= |buffer| && SyncAt(buffer, sync, offset - |sync|)
      && forall k :: 0 <= k < offset - |sync| ==> !SyncAt(buffer, sync, k)
  }

  lemma SyncIsSlice(file: seq<byte>, sync: seq<byte>, q: nat)
    requires |sync| == SYNC_SIZE
    ensures SyncAt(file, sync, q) <==> q + SYNC_SIZE <= |file| && file[q..q + SYNC_SIZE] == sync
  {
    if q + SYNC_SIZE <= |file| {
      var slice := file[q..q + SYNC_SIZE];
      assert forall j :: 0 <= j < SYNC_SIZE ==> slice[j] == file[q + j];
      if SyncAt(file, sync, q) {
        assert forall j :: 0 <= j < SYNC_SIZE ==> slice[j] == sync[j];
        assert slice == sync;
      }
    }
  }

  /** What the first marker of a part of the file says about the file. */
  lemma FirstInWindow(file: seq<byte>, sync: seq<byte>, at: nat, buffer: seq<byte>, offset: int)
    requires |sync| == SYNC_SIZE && at + |buffer| <= |file| && buffer == file[at..at + |buffer|]
    requires FirstIn(buffer, sync, offset)
    ensures offset == -1 ==> NoSync(file, sync, at, at + |buffer| - OVERLAP)
    ensures offset == -1 && |buffer| == Min(2 * OVERLAP, |file| - at) ==> NoSync(file, sync, at, at + OVERLAP)
    ensures offset != -1 ==>
              SyncAt(file, sync, at + offset - SYNC_SIZE) && NoSync(file, sync, at, at + offset - SYNC_SIZE)
  {
    forall k | at <= k && SyncAt(file, sync, k) && k + SYNC_SIZE <= at + |buffer| ensures SyncAt(buffer, sync, k - at) {
    }
  }

  /** The first marker of the spanning bytes is the first one from p on. */
  lemma SpanFinds(file: seq<byte>, sync: seq<byte>, p: nat, w: nat, buffer: seq<byte>, offset: int)
    requires |sync| == SYNC_SIZE && p <= w <= |file| && |buffer| == Min(2 * OVERLAP, |file| - w)
    requires buffer == file[w..w + |buffer|] && FirstIn(buffer, sync, offset) && NoSync(file, sync, p, w)
    ensures offset == -1 ==> NoSync(file, sync, p, w + OVERLAP)
    ensures offset != -1 ==> SYNC_SIZE <= offset <= |buffer| && SyncAt(file, sync, w + offset - SYNC_SIZE)
    ensures offset != -1 ==> NoSync(file, sync, p, w + offset - SYNC_SIZE)
  {
    FirstInWindow(file, sync, w, buffer, offset);
  }

  /** at is the first marker that a search from v sees; -1 if it sees none. */
  ghost predicate FirstSeen(d: Delivery, sync: seq<byte>, v: View, at: int)
    requires v.Valid(d)
  {
    if at == -1 then forall q :: SyncAt(d.file, sync, q) ==> !Seen(d, v, q)
    else
      && SyncAt(d.file, sync, at) && Seen(d, v, at)
      && forall q :: q < at && SyncAt(d.file, sync, q) ==> !Seen(d, v, q)
  }

  /** A search from v sees the same markers as one from v'. */
  ghost predicate SameSeen(d: Delivery, sync: seq<byte>, v: View, v': View)
    requires v.Valid(d) && v'.Valid(d)
  {
    forall q :: SyncAt(d.file, sync, q) ==> (Seen(d, v, q) <==> Seen(d, v', q))
  }

  lemma RoundFinds(d: Delivery, sync: seq<byte>, v: View, now: View, q: nat)
    requires v.Valid(d) && now.Valid(d) && now.p < d.end && SameSeen(d, sync, v, now)
    requires now.p <= q < SpanStart(d, now) + OVERLAP && SyncAt(d.file, sync, q) && NoSync(d.file, sync, now.p, q)
    ensures FirstSeen(d, sync, v, if q < d.end then q else -1)
  {
    assert forall k :: Seen(d, now, k) ==> now.p <= k < d.end;
  }

  /** What a block header makes of the bytes behind a marker: a block of some length, or nonsense
      that is noticed after some bytes. */
  datatype Attempt = Block(length: nat) | Broken(length: nat)

  /** Every marker from `from` on is followed by the end of the file or by a good block and the
      next marker, and by no other occurrence of the marker's bytes in between. */
  ghost predicate Layout(file: seq<byte>, sync: seq<byte>, from: int, blocks: seq<Attempt>)
    requires |blocks| == |file| + 1 && |sync| == SYNC_SIZE
  {
    forall x {:trigger BlockFollows(file, sync, x, blocks)} ::
      from <= x && SyncAt(file, sync, x) ==> BlockFollows(file, sync, x, blocks)
  }

  ghost predicate BlockFollows(file: seq<byte>, sync: seq<byte>, x: nat, blocks: seq<Attempt>)
    requires |blocks| == |file| + 1 && |sync| == SYNC_SIZE && SyncAt(file, sync, x)
  {
    var y := x + SYNC_SIZE;
    y == |file| ||
    (blocks[y].Block? && SyncAt(file, sync, y + blocks[y].length) && NoSync(file, sync, x + 1, y + blocks[y].length))
  }

  /** starts lists markers of the range from a up to b, in order. */
  ghost predicate StartsIn(d: Delivery, sync: seq<byte>, a: int, b: int, starts: seq<nat>) {
    && (forall i, j :: 0 <= i < j < |starts| ==> starts[i] < starts[j])
    && (forall q :: q in starts ==> a <= q < b && q < d.end && q + SYNC_SIZE < |d.file| && SyncAt(d.file, sync, q))
  }

  /** ... and all of those that are followed by a block. */
  ghost predicate StartsAll(d: Delivery, sync: seq<byte>, a: int, b: int, starts: seq<nat>) {
    forall q :: a <= q < b && q < d.end && q + SYNC_SIZE < |d.file| && SyncAt(d.file, sync, q) ==> q in starts
  }

  lemma Joined(d: Delivery, sync: seq<byte>, from: int, mid: int, at: int, to: int, before: seq<nat>, more: seq<nat>)
    requires from <= mid <= at <= to && StartsIn(d, sync, at, to, more) && StartsIn(d, sync, from, mid, before)
    ensures StartsIn(d, sync, from, to, before + more) && StartsIn(d, sync, from, d.end, before + more)
    ensures before == [] ==> before + more == more
  {
    var all := before + more;
    forall i, j | 0 <= i < j < |all| ensures all[i] < all[j] {
      if i < |before| <= j {
        assert before[i] in before && more[j - |before|] in more;
      }
    }
    forall q | q in all ensures q in before || q in more {
    }
  }

  /** Starting the block behind marker q. */
  lemma Started(d: Delivery, sync: seq<byte>, first: int, q: nat, blocks: seq<Attempt>, started: seq<nat>, to: int)
    requires |blocks| == |d.file| + 1 && |sync| == SYNC_SIZE && q + SYNC_SIZE < |d.file| && q < to
    requires StartsIn(d, sync, first, q, started) && first <= q < d.end && SyncAt(d.file, sync, q)
    ensures StartsIn(d, sync, first, to, started + [q])
    ensures Layout(d.file, sync, first, blocks) && StartsAll(d, sync, first, q, started) ==>
              BlockFollows(d.file, sync, q, blocks) &&
              StartsAll(d, sync, first, q + SYNC_SIZE + blocks[q + SYNC_SIZE].length, started + [q])
  {
    var starts := started + [q];
    assert forall i :: 0 <= i < |started| ==> started[i] in started;
  }

  const REMAINING_BLOCK_SIZE_GUESS := 100 * 1024
  const MIN_SYNC_READ_SIZE := 10 * 1024

  /** The view of the stream from which a range looks for its first marker. */
  ghost function StartView(d: Delivery, header: nat): (v: View)
    requires d.Valid() && header <= |d.file|
    ensures v.Valid(d)
  {
    ViewAt(d, Max(d.start, header))
  }

  /** A range processes the blocks behind its markers, from the first one that it sees. */
  ghost predicate Processed(d: Delivery, sync: seq<byte>, header: nat, q: nat)
    requires d.Valid() && header <= |d.file|
  {
    && Max(d.start, header) <= q < d.end && q + SYNC_SIZE < |d.file| && SyncAt(d.file, sync, q)
    && exists a :: a <= q && SyncAt(d.file, sync, a) && Seen(d, StartView(d, header), a)
  }

  lemma FirstMarker(d: Delivery, sync: seq<byte>, header: nat, first: int)
    requires d.Valid() && header <= |d.file| && FirstSeen(d, sync, StartView(d, header), first)
    ensures first == -1 || first + SYNC_SIZE >= |d.file| ==> forall q :: !Processed(d, sync, header, q)
    ensures first != -1 ==> Max(d.start, header) <= first < d.end
  {
    assert first != -1 ==> Seen(d, StartView(d, header), first);
  }

  lemma AllStarted(d: Delivery, sync: seq<byte>, header: nat, first: int, started: seq<nat>)
    requires d.Valid() && header <= |d.file| && FirstSeen(d, sync, StartView(d, header), first) && first != -1
    requires StartsIn(d, sync, first, d.end, started) && StartsAll(d, sync, first, |d.file|, started)
    ensures forall q :: q in started <==> Processed(d, sync, header, q)
  {
    FirstMarker(d, sync, header, first);
  }

  class Scanner {
    const stream: Stream
    const sync: seq<byte>
    const headerSize: nat
    var finished: bool
    var blockStart: nat
    var totalBlockSize: int
    var numSyncs: nat

    constructor (d: Delivery, marker: seq<byte>, header: nat)
      requires d.Valid() && |marker| == SYNC_SIZE
      ensures Valid() && fresh(stream) && stream.delivery == d && sync == marker && headerSize == header
      ensures stream.pos == d.start && stream.boundary == [] && stream.io == []
      ensures !finished && blockStart == 0 && totalBlockSize == 0 && numSyncs == 0
    {
      stream := new Stream(d);
      sync, headerSize := marker, header;
      finished, blockStart, totalBlockSize, numSyncs := false, 0, 0, 0;
    }

    ghost predicate Valid()
      reads this, stream
    {
      stream.Valid() && |sync| == SYNC_SIZE
    }

    ghost function Here(): View
      reads this, stream
    {
      View(stream.pos, |stream.boundary|, stream.Fetched())
    }

    /** The end of the first marker in buffer, or -1. */
    method FindSyncBlock(buffer: seq<byte>) returns (offset: int)
      requires |sync| == SYNC_SIZE
      ensures FirstIn(buffer, sync, offset)
    {
      var search := new Search.Searcher(sync);
      offset := search.Search(buffer);
      if offset != -1 {
        offset := offset + SYNC_SIZE;
      }
    }

    /** The marker that ends at `offset` behind the current position is the first one from p on,
        and it starts before `limit`. */
    ghost predicate Found(p: nat, limit: nat, offset: int)
      reads this, stream
    {
      && SYNC_SIZE <= offset && stream.pos + offset <= |stream.delivery.file|
      && var q := stream.pos + offset - SYNC_SIZE;
         p <= q < limit && SyncAt(stream.delivery.file, sync, q) && NoSync(stream.delivery.file, sync, p, q)
    }

    /** Looks for a marker in the current buffer. */
    method SearchCurrent() returns (offset: int, length: nat)
      requires Valid() && stream.pos < stream.delivery.end
      modifies stream
      ensures Valid() && stream.pos == old(stream.pos)
      ensures var d, v := stream.delivery, old(Here());
              var h := BufferEnd(d, v);
              && length == h - v.p && Here() == v.(u := Max(v.u, h))
              && (offset != -1 ==> Found(v.p, SpanStart(d, v) + OVERLAP, offset))
              && (offset == -1 ==> NoSync(d.file, sync, v.p, h - OVERLAP))
    {
      var buffer := stream.GetBuffer(true);
      length := |buffer|;
      offset := SearchBuffer(buffer);
    }

    /** Looks for a marker in the bytes at the current position. */
    method SearchBuffer(buffer: seq<byte>) returns (offset: int)
      requires Valid() && stream.pos + |buffer| <= |stream.delivery.file|
      requires buffer == stream.delivery.file[stream.pos..stream.pos + |buffer|]
      ensures offset == -1 ==> NoSync(stream.delivery.file, sync, stream.pos, stream.pos + |buffer| - OVERLAP)
      ensures offset != -1 ==> offset <= |buffer| && Found(stream.pos, stream.pos + |buffer|, offset)
    {
      offset := FindSyncBlock(buffer);
      FirstInWindow(stream.delivery.file, sync, stream.pos, buffer, offset);
    }

    /** Moves to the last bytes of the current buffer and peeks at them and at as many behind them. */
    method PeekSpan(length: nat, ghost v: View) returns (buffer: seq<byte>)
      requires Valid() && v.Valid(stream.delivery) && v.p < stream.delivery.end
      requires length == BufferEnd(stream.delivery, v) - v.p
      requires Here() == v.(u := Max(v.u, BufferEnd(stream.delivery, v)))
      modifies stream
      ensures Valid() && stream.pos == SpanStart(stream.delivery, v)
      ensures |buffer| == Min(2 * OVERLAP, |stream.delivery.file| - stream.pos)
      ensures buffer == stream.delivery.file[stream.pos..stream.pos + |buffer|]
      ensures stream.Fetched() ==
              FetchTo(stream.delivery, Max(v.u, BufferEnd(stream.delivery, v)), stream.pos + 2 * OVERLAP)
      ensures |stream.boundary| == |buffer|
              || (stream.boundary != [] && stream.pos + OVERLAP >= stream.delivery.end &&
                  |stream.boundary| >= 2 * OVERLAP)
    {
      SkipToSpan(length, v);
      buffer := stream.GetBytes(2 * OVERLAP, true);
    }

    /** Moves to the last bytes of the current buffer. */
    method SkipToSpan(length: nat, ghost v: View)
      requires Valid() && v.Valid(stream.delivery) && v.p < stream.delivery.end
      requires length == BufferEnd(stream.delivery, v) - v.p
      requires Here() == v.(u := Max(v.u, BufferEnd(stream.delivery, v)))
      modifies stream
      ensures Valid() && stream.pos == SpanStart(stream.delivery, v)
      ensures stream.Fetched() == Max(v.u, BufferEnd(stream.delivery, v))
      ensures |stream.boundary| == if v.b == 0 then 0 else v.b - (stream.pos - v.p)
    {
      var ok := stream.SkipBytes(Max(0, length - OVERLAP));
    }

    /** Moves on behind the bytes peeked at. */
    method MoveOn(ghost v: View)
      requires Valid() && v.Valid(stream.delivery) && v.p < stream.delivery.end
      requires stream.pos == SpanStart(stream.delivery, v)
      requires stream.Fetched() ==
               FetchTo(stream.delivery, Max(v.u, BufferEnd(stream.delivery, v)), stream.pos + 2 * OVERLAP)
      requires |stream.boundary| == Min(2 * OVERLAP, |stream.delivery.file| - stream.pos)
               || (stream.boundary != [] && stream.pos + OVERLAP >= stream.delivery.end &&
                   |stream.boundary| >= 2 * OVERLAP)
      modifies stream
      ensures Valid()
      ensures var d := stream.delivery;
              if SpanStart(d, v) + 2 * OVERLAP < d.end then Here() == Onward(d, v) else stream.pos == d.end
    {
      var buffer := stream.GetBuffer(false);
    }

    /** Looks for a marker in the bytes peeked at. */
    method SearchPeeked(buffer: seq<byte>, ghost p: nat) returns (offset: int)
      requires Valid() && p <= stream.pos && |buffer| == Min(2 * OVERLAP, |stream.delivery.file| - stream.pos)
      requires buffer == stream.delivery.file[stream.pos..stream.pos + |buffer|]
      requires NoSync(stream.delivery.file, sync, p, stream.pos)
      ensures offset == -1 ==> NoSync(stream.delivery.file, sync, p, stream.pos + OVERLAP)
      ensures offset != -1 ==> Found(p, stream.pos + OVERLAP, offset)
    {
      offset := FindSyncBlock(buffer);
      SpanFinds(stream.delivery.file, sync, p, stream.pos, buffer, offset);
    }

    /** Looks for a marker that starts in the current buffer and ends in a later one, and moves on
        behind the bytes it has looked at if there is none. */
    method SearchSpan(length: nat, ghost v: View) returns (offset: int)
      requires Valid() && v.Valid(stream.delivery) && v.p < stream.delivery.end
      requires length == BufferEnd(stream.delivery, v) - v.p
      requires Here() == v.(u := Max(v.u, BufferEnd(stream.delivery, v)))
      requires NoSync(stream.delivery.file, sync, v.p, BufferEnd(stream.delivery, v) - OVERLAP)
      modifies stream
      ensures Valid()
      ensures var d := stream.delivery;
              var w := SpanStart(d, v);
              && (offset != -1 ==> stream.pos == w && Found(v.p, w + OVERLAP, offset))
              && (offset == -1 ==>
                    && NoSync(d.file, sync, v.p, w + OVERLAP)
                    && if w + 2 * OVERLAP < d.end then Here() == Onward(d, v) else stream.pos == d.end)
    {
      var buffer := PeekSpan(length, v);
      offset := SearchPeeked(buffer, v.p);
      if offset == -1 {
        MoveOn(v);
      }
    }

    /** One round of the search, from v; `offset` is the end of the first marker it sees, relative
        to the new position, or -1. */
    method SearchRound() returns (offset: int)
      requires Valid() && stream.pos < stream.delivery.end
      modifies stream
      ensures Valid() && stream.pos >= old(stream.pos)
      ensures offset == -1 ==> stream.pos > old(stream.pos) && SameSeen(stream.delivery, sync, old(Here()), Here())
      ensures offset != -1 ==>
                Found(old(stream.pos), SpanStart(stream.delivery, old(Here())) + OVERLAP, offset)
    {
      ghost var v := Here();
      var length;
      offset, length := SearchCurrent();
      if offset == -1 {
        offset := SearchSpan(length, v);
      }
    }

    /** Searches buffer after buffer until a marker is seen or the range is used up; `offset` is the
        end of the marker, relative to the new position, or -1. */
    method SearchRange() returns (offset: int)
      requires Valid()
      modifies stream
      ensures Valid() && stream.pos >= old(stream.pos)
      ensures offset == -1 ==> FirstSeen(stream.delivery, sync, old(Here()), -1)
      ensures offset != -1 ==>
                && SYNC_SIZE <= offset && stream.pos + offset <= |stream.delivery.file|
                && var q := stream.pos + offset - SYNC_SIZE;
                   FirstSeen(stream.delivery, sync, old(Here()), if q < stream.delivery.end then q else -1)
    {
      ghost var v := Here();
      ghost var now := v;
      offset := -1;
      while !stream.Eosr()
        invariant Valid() && offset == -1 && stream.pos >= v.p && now == Here() &&
                  SameSeen(stream.delivery, sync, v, now)
        decreases stream.delivery.end - stream.pos
      {
        offset := SearchRound();
        if offset != -1 {
          RoundFinds(stream.delivery, sync, v, now, stream.pos + offset - SYNC_SIZE);
          return;
        }
        now := Here();
      }
    }

    /** Moves the stream behind the first marker of the range that the search sees; `at` is where
        that marker starts, -1 if there is none. */
    method SkipToSync() returns (ghost at: int)
      requires Valid()
      modifies this`finished, this`blockStart, this`numSyncs, stream
      ensures Valid() && stream.pos >= old(stream.pos)
      ensures FirstSeen(stream.delivery, sync, old(Here()), at)
      ensures at == -1 ==> finished && numSyncs == old(numSyncs) && blockStart == old(blockStart)
      ensures at != -1 ==>
                && old(stream.pos) <= at < stream.delivery.end && stream.pos == at + SYNC_SIZE == blockStart &&
                numSyncs == old(numSyncs) + 1
                && finished == (old(finished) || stream.Eof())
    {
      var offset := SearchRange();
      if offset == -1 || offset - SYNC_SIZE >= stream.BytesLeft() {
        finished, at := true, -1;
        return;
      }
      at := stream.pos + offset - SYNC_SIZE;
      var ok := stream.SkipBytes(offset);
      if stream.Eof() {
        finished := true;
      }
      blockStart := stream.pos;
      numSyncs := numSyncs + 1;
    }

    /** The block accounting behind ReadPastSize: a positive total has been divided up by at
        least two markers, and the current block starts before the current position. */
    ghost predicate Accounted()
      reads this, stream
    {
      && 0 <= totalBlockSize && blockStart <= stream.pos
      && (totalBlockSize > 0 ==> numSyncs >= 2)
    }

    /** Reads a marker between two blocks.  The scanner is finished if it starts behind the range
        or ends with the file. */
    method ReadSync() returns (ok: bool)
      requires Valid() && Accounted() && numSyncs > 0
      modifies this`finished, this`blockStart, this`totalBlockSize, this`numSyncs, stream
      ensures Valid() && Accounted() && numSyncs > 0
      ensures ok == SyncAt(stream.delivery.file, sync, old(stream.pos))
      ensures stream.pos == Min(old(stream.pos) + SYNC_SIZE, |stream.delivery.file|)
      ensures finished == (old(stream.pos) >= stream.delivery.end || (ok && stream.Eof()))
      ensures ok ==> blockStart == stream.pos && numSyncs == old(numSyncs) + 1
                     && totalBlockSize == old(totalBlockSize) + (stream.pos - old(blockStart))
    {
      finished := stream.Eosr();
      var hash := stream.GetBytes(SYNC_SIZE, false);
      SyncIsSlice(stream.delivery.file, sync, old(stream.pos));
      if |hash| != SYNC_SIZE || hash != sync {
        return false;
      }
      finished := finished || stream.Eof();
      totalBlockSize := totalBlockSize + (stream.pos - blockStart);
      blockStart := stream.pos;
      numSyncs := numSyncs + 1;
      return true;
    }

    /** How many bytes to read behind the end of the range: the rest of an average block. */
    method ReadPastSize(fileOffset: nat, maxReadSize: nat) returns (size: nat)
      requires Valid() && Accounted() && blockStart <= fileOffset
      ensures totalBlockSize == 0 ==> size == REMAINING_BLOCK_SIZE_GUESS
      ensures totalBlockSize > 0 ==>
                && Min(MIN_SYNC_READ_SIZE, maxReadSize) <= size <= maxReadSize
                && (size < maxReadSize ==> blockStart + totalBlockSize / (numSyncs - 1) <= fileOffset + size)
    {
      if totalBlockSize == 0 {
        return REMAINING_BLOCK_SIZE_GUESS;
      }
      var average := totalBlockSize / (numSyncs - 1);
      var read := fileOffset - blockStart;
      var left := Max(average - read, 0);
      left := left + average / 10;
      return Min(Max(left, MIN_SYNC_READ_SIZE), maxReadSize);
    }

    /** The stream stands behind a marker whose block belongs to this range. */
    ghost predicate AtBlock()
      reads this, stream
    {
      && SYNC_SIZE <= stream.pos < |stream.delivery.file|
      && stream.pos - SYNC_SIZE < stream.delivery.end
      && SyncAt(stream.delivery.file, sync, stream.pos - SYNC_SIZE)
    }

    /** Skips bytes of a block. */
    method Skip(length: nat) returns (complete: bool)
      requires Valid()
      modifies stream
      ensures Valid() && complete == (old(stream.pos) + length <= |stream.delivery.file|)
      ensures stream.pos == Min(old(stream.pos) + length, |stream.delivery.file|)
    {
      complete := stream.SkipBytes(length);
    }

    /** Reads one block and the marker behind it. */
    method ReadBlock(blocks: seq<Attempt>) returns (ok: bool)
      requires Valid() && Accounted() && numSyncs > 0 && !finished
      requires |blocks| == |stream.delivery.file| + 1
      modifies this`finished, this`blockStart, this`totalBlockSize, this`numSyncs, stream
      ensures Valid() && Accounted() && numSyncs > 0
      ensures old(stream.pos) <= stream.pos && (ok ==> old(stream.pos) + SYNC_SIZE <= stream.pos)
      ensures ok && !finished ==> AtBlock()
      ensures ok ==>
                && stream.pos == old(stream.pos) + blocks[old(stream.pos)].length + SYNC_SIZE
                && (finished ==> stream.pos - SYNC_SIZE >= stream.delivery.end || stream.pos == |stream.delivery.file|)
      ensures ok == (blocks[old(stream.pos)].Block?
                     && SyncAt(stream.delivery.file, sync, old(stream.pos) + blocks[old(stream.pos)].length))
    {
      var attempt := blocks[stream.pos];
      var complete := Skip(attempt.length);
      if !complete || attempt.Broken? {
        return false;
      }
      ok := ReadSync();
    }

    /** Reads blocks, each followed by a marker, until the range is finished or something is wrong.
        `started` lists the markers whose blocks it has begun to read. */
    method ProcessRange(blocks: seq<Attempt>) returns (ok: bool, ghost started: seq<nat>)
      requires Valid() && Accounted() && numSyncs > 0 && !finished && AtBlock()
      requires |blocks| == |stream.delivery.file| + 1
      modifies this`finished, this`blockStart, this`totalBlockSize, this`numSyncs, stream
      ensures Valid() && Accounted() && numSyncs > 0 && (ok ==> finished)
      ensures stream.pos >= old(stream.pos)
      ensures StartsIn(stream.delivery, sync, old(stream.pos) - SYNC_SIZE, stream.pos - SYNC_SIZE + 1, started)
      ensures Layout(stream.delivery.file, sync, old(stream.pos) - SYNC_SIZE, blocks) ==>
                ok && StartsAll(stream.delivery, sync, old(stream.pos) - SYNC_SIZE, |stream.delivery.file|, started)
    {
      started := [];
      ghost var d, first := stream.delivery, stream.pos - SYNC_SIZE;
      while !finished
        invariant Valid() && Accounted() && numSyncs > 0 && stream.pos >= first + SYNC_SIZE
        invariant !finished ==> AtBlock()
        invariant StartsIn(d, sync, first, stream.pos - SYNC_SIZE, started)
        invariant Layout(d.file, sync, first, blocks) ==> StartsAll(d, sync, first, stream.pos - SYNC_SIZE, started)
        invariant finished ==> stream.pos - SYNC_SIZE >= d.end || stream.pos == |d.file|
        decreases |d.file| - stream.pos
      {
        ghost var q := stream.pos - SYNC_SIZE;
        ok := ReadBlock(blocks);
        Started(d, sync, first, q, blocks, started, if ok then stream.pos - SYNC_SIZE else stream.pos - SYNC_SIZE + 1);
        started := started + [q];
        if !ok {
          return;
        }
      }
      return true, started;
    }

    /** Skips the rest of the header, if the range starts in it. */
    method SkipHeader()
      requires Valid() && stream.pos == stream.delivery.start && stream.boundary == [] && stream.io == []
      requires headerSize <= |stream.delivery.file|
      modifies stream
      ensures Valid() && Here() == StartView(stream.delivery, headerSize)
    {
      if stream.pos < headerSize {
        var ok := stream.SkipBytes(headerSize - stream.pos);
      }
    }

    /** Skips to the next marker after an error. */
    method Resync()
      requires Valid() && Accounted() && numSyncs > 0
      modifies this`finished, this`blockStart, this`numSyncs, stream
      ensures Valid() && Accounted() && stream.pos >= old(stream.pos)
      ensures !finished ==> numSyncs > 0 && AtBlock() && old(stream.pos) <= stream.pos - SYNC_SIZE
    {
      ghost var at := SkipToSync();
    }

    /** The loop of ProcessSplit: reads blocks, and after an error goes on behind the next marker. */
    method ProcessBlocks(blocks: seq<Attempt>, abortOnError: bool) returns (ok: bool, ghost started: seq<nat>)
      requires Valid() && Accounted() && |blocks| == |stream.delivery.file| + 1
      requires !finished ==> numSyncs > 0 && AtBlock()
      modifies this`finished, this`blockStart, this`totalBlockSize, this`numSyncs, stream
      ensures Valid() && Accounted() && (ok ==> finished) && (!abortOnError ==> ok)
      ensures old(finished) ==> ok && started == []
      ensures !old(finished) ==>
                StartsIn(stream.delivery, sync, old(stream.pos) - SYNC_SIZE, stream.delivery.end, started)
      ensures !old(finished) && Layout(stream.delivery.file, sync, old(stream.pos) - SYNC_SIZE, blocks) ==>
                ok && StartsAll(stream.delivery, sync, old(stream.pos) - SYNC_SIZE, |stream.delivery.file|, started)
    {
      ghost var d, first := stream.delivery, stream.pos - SYNC_SIZE;
      ghost var last: int := first;
      started := [];
      while !finished
        invariant Valid() && Accounted()
        invariant !finished ==> numSyncs > 0 && AtBlock() && first <= last <= stream.pos - SYNC_SIZE
        invariant StartsIn(d, sync, first, last, started)
        invariant !old(finished) && Layout(d.file, sync, first, blocks) ==>
                    !finished && started == [] && stream.pos - SYNC_SIZE == first
        invariant old(finished) ==> finished && started == []
        decreases |d.file| - stream.pos, !finished
      {
        ghost var at, more := stream.pos - SYNC_SIZE, [];
        ok, more := ProcessRange(blocks);
        ghost var mid := last;
        last := stream.pos - SYNC_SIZE + 1;
        Joined(d, sync, first, mid, at, last, started, more);
        started := started + more;
        if ok || abortOnError {
          return;
        }
        Resync();
      }
      ok := true;
    }

    /** Processes a range from its first marker on.  `started` lists the markers whose blocks it has
        begun to read. */
    method ProcessSplit(blocks: seq<Attempt>, abortOnError: bool) returns (ok: bool, ghost started: seq<nat>)
      requires Valid() && stream.pos == stream.delivery.start && stream.boundary == [] && stream.io == []
      requires headerSize <= |stream.delivery.file| && |blocks| == |stream.delivery.file| + 1
      requires blockStart == 0 && totalBlockSize == 0 && numSyncs == 0
      modifies this`finished, this`blockStart, this`totalBlockSize, this`numSyncs, stream
      ensures Valid() && Accounted() && (ok ==> finished) && (!abortOnError ==> ok)
      ensures StartsIn(stream.delivery, sync, Max(stream.delivery.start, headerSize), stream.delivery.end, started)
      ensures Layout(stream.delivery.file, sync, headerSize, blocks) ==>
                ok && forall q :: q in started <==> Processed(stream.delivery, sync, headerSize, q)
    {
      finished := false;
      SkipHeader();
      ghost var first := SkipToSync();
      ghost var d := stream.delivery;
      FirstMarker(d, sync, headerSize, first);
      ok, started := ProcessBlocks(blocks, abortOnError);
      if first != -1 && first + SYNC_SIZE < |d.file| && Layout(d.file, sync, headerSize, blocks) {
        AllStarted(d, sync, headerSize, first, started);
      }
    }
  }
}
