/** The ranges of one file, each processed by its own scanner.
    be/src/exec/base-sequence-scanner.h, lines 146-159: each range is responsible for the
    blocks behind the markers that start in it.
 */
module SyncSplits {
  import opened Bytes
  import opened ScannerStream
  import opened SyncSkip
  import opened SequenceScanner

  /** Contiguous ranges that cover the file. */
  ghost predicate Covers(ranges: seq<Delivery>, file: seq<byte>) {
    && ranges != [] && ranges[0].start == 0 && ranges[|ranges| - 1].end == |file|
    && (forall i :: 0 <= i < |ranges| ==> ranges[i].Valid() && ranges[i].file == file)
    && (forall i :: 0 < i < |ranges| ==> ranges[i - 1].end == ranges[i].start)
  }

  lemma {:induction false} RangesOrdered(ranges: seq<Delivery>, file: seq<byte>, i: nat, j: nat)
    requires Covers(ranges, file) && i < j < |ranges|
    ensures ranges[i].end <= ranges[j].start
    decreases j
  {
    if i + 1 >= j {
    } else {
      RangesOrdered(ranges, file, i, j - 1);
    }
  }

  /** The range in which offset q lies. */
  lemma {:induction false} RangeOf(ranges: seq<Delivery>, file: seq<byte>, q: nat, from: nat) returns (i: nat)
    requires Covers(ranges, file) && q < |file| && from < |ranges| && ranges[from].start <= q
    ensures i < |ranges| && ranges[i].start <= q < ranges[i].end
    decreases |ranges| - from
  {
    i := from;
    if ranges[from].end <= q {
      i := RangeOf(ranges, file, q, from + 1);
    }
  }

  /** ... and it lies in no other. */
  lemma OneRange(ranges: seq<Delivery>, file: seq<byte>, q: nat, i: nat, j: nat)
    requires Covers(ranges, file) && i < |ranges| && j < |ranges|
    requires ranges[i].start <= q < ranges[i].end && ranges[j].start <= q < ranges[j].end
    ensures i == j
  {
    if i < j {
      RangesOrdered(ranges, file, i, j);
    } else if j < i {
      RangesOrdered(ranges, file, j, i);
    }
  }

  /** With errors at any points, no block is started by two ranges, or twice by one. */
  lemma NoneStartedTwice(ranges: seq<Delivery>, file: seq<byte>, sync: seq<byte>, header: nat, starts: seq<seq<nat>>,
                         i: nat, k: nat, j: nat, l: nat)
    requires Covers(ranges, file) && |starts| == |ranges|
    requires forall x :: 0 <= x < |ranges| ==>
               StartsIn(ranges[x], sync, Max(ranges[x].start, header), ranges[x].end, starts[x])
    requires i < |starts| && j < |starts| && k < |starts[i]| && l < |starts[j]| && starts[i][k] == starts[j][l]
    ensures i == j && k == l
  {
    assert starts[i][k] in starts[i] && starts[j][l] in starts[j];
    OneRange(ranges, file, starts[i][k], i, j);
  }

  /** No block is processed by two ranges; it is processed by the range in which its marker starts,
      exactly if that range sees this or an earlier marker of its own. */
  lemma BlockOwner(ranges: seq<Delivery>, file: seq<byte>, sync: seq<byte>, header: nat, q: nat) returns (i: nat)
    requires Covers(ranges, file) && header <= q && q + SYNC_SIZE < |file| && SyncAt(file, sync, q)
    ensures i < |ranges| && ranges[i].start <= q < ranges[i].end
    ensures forall j :: 0 <= j < |ranges| && Processed(ranges[j], sync, header, q) ==> j == i
    ensures Processed(ranges[i], sync, header, q) <==>
            exists a :: a <= q && SyncAt(file, sync, a) && Seen(ranges[i], StartView(ranges[i], header), a)
  {
    i := RangeOf(ranges, file, q, 0);
    forall j | 0 <= j < |ranges| && Processed(ranges[j], sync, header, q) ensures j == i {
      OneRange(ranges, file, q, i, j);
    }
  }

  /** The range's first marker, if it has one, is seen. */
  ghost predicate SeesFirst(d: Delivery, sync: seq<byte>, header: nat)
    requires d.Valid() && header <= |d.file|
  {
    var lo := Max(d.start, header);
    forall a :: lo <= a < d.end && SyncAt(d.file, sync, a) && NoSync(d.file, sync, lo, a) ==>
                  Seen(d, StartView(d, header), a)
  }

  /** If every range sees its first marker, every block is processed by exactly one range. */
  lemma EveryBlockOnce(ranges: seq<Delivery>, file: seq<byte>, sync: seq<byte>, header: nat, q: nat) returns (i: nat)
    requires Covers(ranges, file) && header <= q && q + SYNC_SIZE < |file| && SyncAt(file, sync, q)
    requires forall j :: 0 <= j < |ranges| ==> SeesFirst(ranges[j], sync, header)
    ensures i < |ranges| && Processed(ranges[i], sync, header, q)
    ensures forall j :: 0 <= j < |ranges| && Processed(ranges[j], sync, header, q) ==> j == i
  {
    i := BlockOwner(ranges, file, sync, header, q);
    var a := FirstSync(file, sync, Max(ranges[i].start, header), q);
    assert Seen(ranges[i], StartView(ranges[i], header), a);
  }

  lemma {:induction false} FirstSync(file: seq<byte>, sync: seq<byte>, from: nat, q: nat) returns (a: nat)
    requires from <= q && SyncAt(file, sync, q)
    ensures from <= a <= q && SyncAt(file, sync, a) && NoSync(file, sync, from, a)
    decreases q - from
  {
    if SyncAt(file, sync, from) {
      a := from;
    } else {
      a := FirstSync(file, sync, from + 1, q);
    }
  }

  // ----- when every block of every good file is processed once -----

  /** The file holds no block whose marker starts in the first gap of the range: the buffer that holds the first
      byte behind the header reaches the end of the range, or what follows it is too short for a block, of `least`
      bytes at least, and its markers.  This depends on where the range, its buffers and the header end, and on
      nothing else. */
  ghost predicate NoGap(d: Delivery, header: nat, least: nat)
    requires d.Valid() && header <= |d.file|
  {
    var lo := Max(d.start, header);
    lo < d.end ==> GapStart(d, lo) >= Min(d.end, |d.file| - 2 * SYNC_SIZE - least + 1)
  }

  /** The ranges with another file of the same size. */
  ghost function Reading(ranges: seq<Delivery>, file: seq<byte>): (r: seq<Delivery>)
    ensures |r| == |ranges| && forall i :: 0 <= i < |r| ==> r[i] == ranges[i].(file := file)
  {
    seq(|ranges|, i requires 0 <= i < |ranges| => ranges[i].(file := file))
  }

  /** Exactly one range processes the block behind the marker at q. */
  ghost predicate Once(ranges: seq<Delivery>, sync: seq<byte>, header: nat, q: nat)
    requires forall i :: 0 <= i < |ranges| ==> ranges[i].Valid() && header <= |ranges[i].file|
  {
    exists i :: 0 <= i < |ranges| && Processed(ranges[i], sync, header, q)
                && forall j :: 0 <= j < |ranges| && Processed(ranges[j], sync, header, q) ==> j == i
  }

  /** The same for the ranges with another file. */
  ghost predicate OnceIn(ranges: seq<Delivery>, file: seq<byte>, sync: seq<byte>, header: nat, q: nat) {
    && header <= |file| && Covers(Reading(ranges, file), file)
    && Once(Reading(ranges, file), sync, header, q)
  }

  /** A file in which every marker behind the header is followed by a good block and the next marker, or by the
      end, and no block is smaller than `least`; q is a marker with a block. */
  ghost predicate GoodBlock(file: seq<byte>, sync: seq<byte>, header: nat, least: nat, blocks: seq<Attempt>, q: nat) {
    && |sync| == SYNC_SIZE && |blocks| == |file| + 1 && Layout(file, sync, header, blocks)
    && (forall y :: 0 <= y < |blocks| ==> least <= blocks[y].length)
    && header <= q && q + SYNC_SIZE < |file| && SyncAt(file, sync, q)
  }

  lemma {:induction false} FetchIgnoresBytes(d: Delivery, file: seq<byte>, u: nat, target: int)
    requires d.Valid() && |file| == |d.file| && u <= |file|
    ensures d.(file := file).Valid() && FetchTo(d.(file := file), u, target) == FetchTo(d, u, target)
    decreases |file| - u
  {
    if u >= target || u == |file| {
    } else {
      FetchIgnoresBytes(d, file, d.ends[u], target);
    }
  }

  lemma SameCover(ranges: seq<Delivery>, file: seq<byte>, other: seq<byte>)
    requires Covers(ranges, file) && |other| == |file|
    ensures Covers(Reading(ranges, other), other)
  {
  }

  lemma SameGaps(d: Delivery, header: nat, least: nat, file: seq<byte>)
    requires d.Valid() && |file| == |d.file| && header <= |file|
    ensures d.(file := file).Valid() && (NoGap(d.(file := file), header, least) <==> NoGap(d, header, least))
  {
    FetchIgnoresBytes(d, file, d.start, Max(d.start, header) + 1);
  }

  lemma SameGapStart(d: Delivery, file: seq<byte>, lo: nat)
    requires d.Valid() && |file| == |d.file| && d.start <= lo < d.end
    ensures d.(file := file).Valid() && GapStart(d.(file := file), lo) == GapStart(d, lo)
  {
    FetchIgnoresBytes(d, file, d.start, lo + 1);
  }

  /** Without gaps, every block of every good file is processed once. */
  lemma NoGapsSuffice(ranges: seq<Delivery>, file: seq<byte>, sync: seq<byte>, header: nat, least: nat,
                      blocks: seq<Attempt>, q: nat)
    requires Covers(ranges, file) && header <= |file| && GoodBlock(file, sync, header, least, blocks, q)
    requires forall i :: 0 <= i < |ranges| ==> NoGap(ranges[i], header, least)
    ensures Once(ranges, sync, header, q)
  {
    var i := BlockOwner(ranges, file, sync, header, q);
    var d, lo := ranges[i], Max(ranges[i].start, header);
    var a := FirstSync(file, sync, lo, q);
    assert BlockFollows(file, sync, q, blocks) && least <= blocks[q + SYNC_SIZE].length;
    SeenUnlessBlind(d, lo, a);
    assert Seen(d, StartView(d, header), a);
  }

  /** A file of n bytes with a block whose marker starts at q, and a marker at the end. */
  ghost function LoneBlock(n: nat, q: nat): (file: seq<byte>)
    requires q + 2 * SYNC_SIZE <= n
    ensures |file| == n
  {
    seq(n, i requires 0 <= i < n =>
      if q <= i < q + SYNC_SIZE then i - q + 1 else if n - SYNC_SIZE <= i then i - (n - SYNC_SIZE) + 1 else 0)
  }

  lemma LoneBlockMarkers(n: nat, q: nat, x: int)
    requires q + 2 * SYNC_SIZE <= n
    ensures SyncAt(LoneBlock(n, q), UnluckySync(), x) <==> x == q || x == n - SYNC_SIZE
  {
    var file, sync := LoneBlock(n, q), UnluckySync();
    assert sync[0] == 1;
    if SyncAt(file, sync, x) {
      assert file[x] == file[x + 0] == 1;
    }
  }

  lemma LoneBlockIsGood(n: nat, q: nat, header: nat, least: nat) returns (blocks: seq<Attempt>)
    requires q + 2 * SYNC_SIZE + least <= n && header <= q
    ensures GoodBlock(LoneBlock(n, q), UnluckySync(), header, least, blocks, q)
  {
    var file, sync := LoneBlock(n, q), UnluckySync();
    blocks := seq(n + 1, _ => Block(n - q - 2 * SYNC_SIZE));
    forall x ensures SyncAt(file, sync, x) <==> x == q || x == n - SYNC_SIZE {
      LoneBlockMarkers(n, q, x);
    }
    forall x {:trigger BlockFollows(file, sync, x, blocks)} | header <= x && SyncAt(file, sync, x)
      ensures BlockFollows(file, sync, x, blocks) {
    }
  }

  /** The range in whose first gap that block's marker starts does not process it. */
  lemma LoneBlockLost(d: Delivery, n: nat, header: nat)
    requires d.Valid() && header <= |d.file| == n && Max(d.start, header) < d.end
    requires var q := GapStart(d, Max(d.start, header));
             q < d.end && q + 2 * SYNC_SIZE <= n && d.file == LoneBlock(n, q)
    ensures !Processed(d, UnluckySync(), header, GapStart(d, Max(d.start, header)))
  {
    var lo, sync := Max(d.start, header), UnluckySync();
    var q := GapStart(d, lo);
    SeenUnlessBlind(d, lo, q);
    forall a | a <= q && SyncAt(d.file, sync, a) ensures !Seen(d, StartView(d, header), a) {
      LoneBlockMarkers(n, q, a);
    }
  }

  /** A block that its own range does not process is not processed. */
  lemma NoOtherRange(ranges: seq<Delivery>, file: seq<byte>, sync: seq<byte>, header: nat, i: nat, q: nat)
    requires Covers(ranges, file) && header <= |file| && i < |ranges| && ranges[i].start <= q < ranges[i].end
    requires !Processed(ranges[i], sync, header, q)
    ensures !Once(ranges, sync, header, q)
  {
    forall j | 0 <= j < |ranges| ensures !Processed(ranges[j], sync, header, q) {
      if ranges[j].start <= q < ranges[j].end {
        OneRange(ranges, file, q, i, j);
      }
    }
  }

  /** With a gap, a good file of the same size loses a block. */
  lemma GapLosesBlock(ranges: seq<Delivery>, file: seq<byte>, header: nat, least: nat, i: nat)
    returns (other: seq<byte>, blocks: seq<Attempt>, q: nat)
    requires Covers(ranges, file) && header <= |file| && i < |ranges| && !NoGap(ranges[i], header, least)
    ensures |other| == |file| && GoodBlock(other, UnluckySync(), header, least, blocks, q)
    ensures !OnceIn(ranges, other, UnluckySync(), header, q)
  {
    var lo := Max(ranges[i].start, header);
    q := GapStart(ranges[i], lo);
    other := LoneBlock(|file|, q);
    blocks := LoneBlockIsGood(|file|, q, header, least);
    SameCover(ranges, file, other);
    var all := Reading(ranges, other);
    SameGapStart(ranges[i], other, lo);
    LoneBlockLost(all[i], |file|, header);
    NoOtherRange(all, other, UnluckySync(), header, i, q);
  }

  /** For ranges and buffers of any sizes and blocks of any least size: every block of every good file of this size is
      processed by exactly one range, if and only if no range has a gap. */
  lemma ExactlyOnceWhen(ranges: seq<Delivery>, file: seq<byte>, header: nat, least: nat)
    requires Covers(ranges, file) && header <= |file|
    ensures (forall other, sync, blocks, q ::
               |other| == |file| && GoodBlock(other, sync, header, least, blocks, q) ==>
                 OnceIn(ranges, other, sync, header, q))
            <==> forall i :: 0 <= i < |ranges| ==> NoGap(ranges[i], header, least)
  {
    if forall i :: 0 <= i < |ranges| ==> NoGap(ranges[i], header, least) {
      forall other, sync, blocks, q | |other| == |file| && GoodBlock(other, sync, header, least, blocks, q)
        ensures OnceIn(ranges, other, sync, header, q) {
        SameCover(ranges, file, other);
        forall i | 0 <= i < |ranges| ensures NoGap(Reading(ranges, other)[i], header, least) {
          SameGaps(ranges[i], header, least, other);
        }
        NoGapsSuffice(Reading(ranges, other), other, sync, header, least, blocks, q);
      }
    } else {
      var i :| 0 <= i < |ranges| && !NoGap(ranges[i], header, least);
      var other, blocks, q := GapLosesBlock(ranges, file, header, least, i);
      assert !OnceIn(ranges, other, UnluckySync(), header, q);
    }
  }

  /** Otherwise a block may be lost: one range, two buffers, and the marker at the boundary. */
  lemma BlockLost()
    ensures var d, sync := UnluckyDelivery(), UnluckySync();
            && Covers([d], d.file) && SyncAt(d.file, sync, 32) && 32 + SYNC_SIZE < |d.file|
            && !Processed(d, sync, 0, 32)
  {
    var d, sync := UnluckyDelivery(), UnluckySync();
    MarkerMissed();
    assert sync[0] == 1;
    assert forall a :: 0 <= a < 32 ==> d.file[a] == 0;
  }
}
