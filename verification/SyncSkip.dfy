/** Which sync markers BaseSequenceScanner::SkipToSync can see, as a matter of where the io
    buffers end: be/src/exec/base-sequence-scanner.cc, lines 215-275.

    The search looks at the current buffer, then at the 30 bytes that start 15 bytes before
    its end, and then moves on behind those 30 bytes.  A marker that starts in the second
    half of them is in neither view.
 */
module SyncSkip {
  import opened Bytes
  import opened ScannerStream
  import Search = StringSearch

  const SYNC_SIZE := 16
  const OVERLAP := SYNC_SIZE - 1

  /** A sync marker starts at q. */
  predicate SyncAt(file: seq<byte>, sync: seq<byte>, q: int) {
    Search.OccursAt(file, sync, q)
  }

  /** A stream at p, with b bytes in its boundary buffer and the file fetched up to u. */
  datatype View = View(p: nat, b: nat, u: nat) {
    ghost predicate Valid(d: Delivery) {
      && d.Valid() && p + b <= u <= |d.file|
      && (p + b < u && p + b < d.end ==> u <= d.end)
    }
  }

  /** The end of the bytes that GetBuffer shows. */
  ghost function BufferEnd(d: Delivery, v: View): (h: nat)
    requires v.Valid(d) && v.p < d.end
    ensures v.p < h <= d.end
  {
    if v.b > 0 then Min(v.p + v.b, d.end) else if v.u > v.p then v.u else d.ends[v.p]
  }

  /** Where the 30 bytes that span two buffers start. */
  ghost function SpanStart(d: Delivery, v: View): (w: nat)
    requires v.Valid(d) && v.p < d.end
    ensures v.p <= w < d.end
  {
    Max(v.p, BufferEnd(d, v) - OVERLAP)
  }

  /** The stream behind those 30 bytes. */
  ghost function Onward(d: Delivery, v: View): (v': View)
    requires v.Valid(d) && v.p < d.end && SpanStart(d, v) + 2 * OVERLAP < d.end
    ensures v'.Valid(d) && v'.p == SpanStart(d, v) + 2 * OVERLAP && v'.b == 0
  {
    var p := SpanStart(d, v) + 2 * OVERLAP;
    var u := FetchTo(d, Max(v.u, BufferEnd(d, v)), p);
    FetchInRange(d, Max(v.u, BufferEnd(d, v)), p);
    View(p, 0, u)
  }

  lemma {:induction false} FetchInRange(d: Delivery, u: nat, target: nat)
    requires d.Valid() && u <= |d.file| && target < d.end
    requires u <= d.end || u <= target
    ensures FetchTo(d, u, target) <= d.end || FetchTo(d, u, target) <= target
    decreases |d.file| - u
  {
    if u >= target {
    } else {
      FetchInRange(d, d.ends[u], target);
    }
  }

  /** A marker at q is seen by a search that starts in v. */
  ghost predicate Seen(d: Delivery, v: View, q: int)
    requires v.Valid(d)
    decreases d.end - v.p
  {
    v.p <= q < d.end &&
    var w := SpanStart(d, v);
    q < w + OVERLAP || (w + 2 * OVERLAP <= q && Seen(d, Onward(d, v), q))
  }

  ghost predicate SeesAll(d: Delivery, v: View)
    requires v.Valid(d)
  {
    forall q :: v.p <= q < d.end ==> Seen(d, v, q)
  }

  lemma SeenThere(d: Delivery, v: View, q: int)
    requires v.Valid(d) && SeesAll(d, v) && v.p <= q < d.end
    ensures Seen(d, v, q)
  {
  }

  /** From any view, everything up to the end of the range is seen if and only if the buffer shown first
      reaches that end, or no more than 15 bytes are left. */
  lemma SeesAllWhen(d: Delivery, v: View)
    requires v.Valid(d) && v.p < d.end
    ensures SeesAll(d, v) <==> Max(v.p + OVERLAP, BufferEnd(d, v)) >= d.end
  {
    var m := SpanStart(d, v) + OVERLAP;
    assert m == Max(v.p + OVERLAP, BufferEnd(d, v));
    if m < d.end {
      if SeesAll(d, v) {
        SeenThere(d, v, m);
        assert false;
      }
    } else {
      forall q | v.p <= q < d.end ensures Seen(d, v, q) {
        assert q < m;
      }
    }
  }

  // ----- the positions that a search from the beginning of a range does not see -----

  /** The end of the buffer that holds the byte at p: buffers follow each other from the start of the range. */
  ghost function NextEnd(d: Delivery, p: nat): (u: nat)
    requires d.Valid() && d.start <= p < d.end
    ensures p < u <= d.end
  {
    FetchStays(d, d.start, p + 1);
    FetchTo(d, d.start, p + 1)
  }

  lemma {:induction false} FetchStays(d: Delivery, u: nat, target: nat)
    requires d.Valid() && u <= d.end && target <= d.end
    ensures FetchTo(d, u, target) <= d.end
    decreases |d.file| - u
  {
    if u < target {
      FetchStays(d, d.ends[u], target);
    } else {
      assert FetchTo(d, u, target) == u;
    }
  }

  lemma {:induction false} FetchTwice(d: Delivery, u: nat, a: int, b: int)
    requires d.Valid() && u <= |d.file| && a <= b
    ensures FetchTo(d, FetchTo(d, u, a), b) == FetchTo(d, u, b)
    decreases |d.file| - u
  {
    if u >= a || u == |d.file| {
      assert FetchTo(d, u, a) == u;
    } else {
      FetchTwice(d, d.ends[u], a, b);
    }
  }

  /** Where the first gap behind p starts: at the end of p's buffer, but not before p + 15. */
  ghost function GapStart(d: Delivery, p: nat): (m: nat)
    requires d.Valid() && d.start <= p < d.end
    ensures p + OVERLAP <= m
  {
    Max(p + OVERLAP, NextEnd(d, p))
  }

  /** q lies in one of the gaps of 15 bytes that a search from p leaves. */
  ghost predicate Blind(d: Delivery, p: nat, q: int)
    requires d.Valid() && d.start <= p
    decreases d.end - p
  {
    p < d.end &&
    var m := GapStart(d, p);
    m <= q < d.end && (q < m + OVERLAP || Blind(d, m + OVERLAP, q))
  }

  /** The stream at p with no more fetched than the buffers up to p. */
  ghost function ViewAt(d: Delivery, p: nat): (v: View)
    requires d.Valid() && d.start <= p <= |d.file|
    ensures v.Valid(d) && v.p == p && v.b == 0
  {
    FetchUpTo(d, d.start, p);
    View(p, 0, FetchTo(d, d.start, p))
  }

  lemma {:induction false} FetchUpTo(d: Delivery, u: nat, target: nat)
    requires d.Valid() && u <= |d.file| && (target < d.end ==> u <= d.end) && target <= |d.file|
    ensures FetchTo(d, u, target) >= target && (target < d.end ==> FetchTo(d, u, target) <= d.end)
    decreases |d.file| - u
  {
    if u < target {
      FetchUpTo(d, d.ends[u], target);
    } else {
      assert FetchTo(d, u, target) == u;
    }
  }

  lemma BufferAt(d: Delivery, p: nat)
    requires d.Valid() && d.start <= p < d.end
    ensures BufferEnd(d, ViewAt(d, p)) == NextEnd(d, p)
  {
    FetchTwice(d, d.start, p, p + 1);
    var u := FetchTo(d, d.start, p);
    assert u == p ==> FetchTo(d, u, p + 1) == d.ends[p];
  }

  lemma OnwardFrom(d: Delivery, p: nat)
    requires d.Valid() && d.start <= p < d.end && GapStart(d, p) + OVERLAP < d.end
    ensures SpanStart(d, ViewAt(d, p)) + 2 * OVERLAP == GapStart(d, p) + OVERLAP
    ensures Onward(d, ViewAt(d, p)) == ViewAt(d, GapStart(d, p) + OVERLAP)
  {
    var v, p' := ViewAt(d, p), GapStart(d, p) + OVERLAP;
    BufferAt(d, p);
    assert v.u <= NextEnd(d, p) by {
      FetchTwice(d, d.start, p, p + 1);
    }
    FetchTwice(d, d.start, p + 1, p');
  }

  /** For every chunking: a search from p sees exactly what lies in none of the gaps. */
  lemma {:induction false} SeenUnlessBlind(d: Delivery, p: nat, q: nat)
    requires d.Valid() && d.start <= p <= q < d.end
    ensures Seen(d, ViewAt(d, p), q) <==> !Blind(d, p, q)
    decreases d.end - p
  {
    BufferAt(d, p);
    var m := GapStart(d, p);
    assert SpanStart(d, ViewAt(d, p)) + OVERLAP == m;
    if m + OVERLAP <= q {
      OnwardFrom(d, p);
      SeenUnlessBlind(d, m + OVERLAP, q);
    } else {
      assert Blind(d, p, q) <==> m <= q;
    }
  }

  // ----- the gaps, when buffers are not tiny -----

  /** q lies in the first 15 bytes of a buffer that starts at u or later. */
  ghost predicate OpensBuffer(d: Delivery, u: nat, q: int)
    requires d.Valid() && u <= |d.file|
    decreases |d.file| - u
  {
    u <= q && u < d.end && (q < u + OVERLAP || OpensBuffer(d, d.ends[u], q))
  }

  /** The buffers of the range that start at u or later, except its last one, hold at least 30 bytes. */
  ghost predicate LargeBuffers(d: Delivery, u: nat)
    requires d.Valid() && u <= |d.file|
    decreases |d.file| - u
  {
    u < d.end ==> (d.ends[u] >= u + 2 * OVERLAP || d.ends[u] == d.end) && LargeBuffers(d, d.ends[u])
  }

  /** A byte of the buffer behind the one that holds p. */
  lemma NextOf(d: Delivery, p: nat, r: nat)
    requires d.Valid() && d.start <= p < d.end && p < NextEnd(d, p) < d.end
    requires NextEnd(d, p) <= r < d.ends[NextEnd(d, p)]
    ensures r < d.end && NextEnd(d, r) == d.ends[NextEnd(d, p)]
  {
    var u := NextEnd(d, p);
    FetchTwice(d, d.start, p + 1, r + 1);
    assert FetchTo(d, u, r + 1) == FetchTo(d, d.ends[u], r + 1) == d.ends[u];
  }

  /** From inside a buffer that ends at u, at least 15 bytes before that: the gaps are the
      beginnings of the later buffers. */
  lemma {:induction false} BlindOpens(d: Delivery, p: nat, u: nat, q: nat)
    requires d.Valid() && d.start <= p < d.end && u == NextEnd(d, p) && LargeBuffers(d, u)
    requires p <= q < d.end && (p + OVERLAP <= u || u == d.end)
    ensures Blind(d, p, q) <==> OpensBuffer(d, u, q)
    decreases d.end - p
  {
    if u + OVERLAP <= q {
      NextOf(d, p, u + OVERLAP);
      BlindOpens(d, u + OVERLAP, d.ends[u], q);
    } else {
      assert u == d.end ==> !OpensBuffer(d, u, q);
    }
  }

  lemma BehindFirstGap(d: Delivery, p: nat, q: nat)
    requires d.Valid() && d.start <= p < d.end && LargeBuffers(d, NextEnd(d, p)) && NextEnd(d, p) < d.end
    requires var e := d.ends[NextEnd(d, p)];
             e >= GapStart(d, p) + 2 * OVERLAP || e == d.end
    requires GapStart(d, p) + OVERLAP <= q < d.end
    ensures Blind(d, p, q) <==> OpensBuffer(d, d.ends[NextEnd(d, p)], q)
  {
    var u, next := NextEnd(d, p), GapStart(d, p) + OVERLAP;
    NextOf(d, p, next);
    BlindOpens(d, next, d.ends[u], q);
  }

  /** With buffers of at least 30 bytes, of which the second one reaches 30 bytes behind the first gap, a search
      from p misses exactly the markers that start in that gap or in the first 15 bytes of a buffer behind the
      second one. */
  lemma MissesOpeningMarkers(d: Delivery, p: nat, q: nat)
    requires d.Valid() && d.start <= p <= q < d.end && LargeBuffers(d, NextEnd(d, p))
    requires var u := NextEnd(d, p);
             u < d.end ==> d.ends[u] >= GapStart(d, p) + 2 * OVERLAP || d.ends[u] == d.end
    ensures var u, m := NextEnd(d, p), GapStart(d, p);
            Seen(d, ViewAt(d, p), q) <==> u == d.end || (!(m <= q < m + OVERLAP) && !OpensBuffer(d, d.ends[u], q))
  {
    SeenUnlessBlind(d, p, q);
    var u, m := NextEnd(d, p), GapStart(d, p);
    if u < d.end {
      if m + OVERLAP <= q {
        BehindFirstGap(d, p, q);
      } else {
        assert q < d.ends[u];
      }
    }
  }

  /** A file of 64 bytes, delivered in two buffers, whose only marker starts the second one. */
  ghost function UnluckySync(): seq<byte> {
    seq(SYNC_SIZE, i requires 0 <= i < SYNC_SIZE => i + 1)
  }

  ghost function UnluckyDelivery(): Delivery {
    var zeros := seq(32, i requires 0 <= i < 32 => 0);
    Delivery(zeros + UnluckySync() + zeros[..SYNC_SIZE], 0, 64,
             seq(64, i requires 0 <= i < 64 => if i < 32 then 32 else 64))
  }

  /** The search from the beginning of that file does not see its marker. */
  lemma MarkerMissed()
    ensures var d := UnluckyDelivery();
            && d.Valid() && LargeBuffers(d, 0) && SyncAt(d.file, UnluckySync(), 32) && 32 < d.end
            && !Seen(d, View(0, 0, 0), 32)
  {
    var d, sync := UnluckyDelivery(), UnluckySync();
    assert forall i :: 0 <= i < SYNC_SIZE ==> d.file[32 + i] == sync[i];
    var v := View(0, 0, 0);
    assert d.ends[0] == 32;
    assert BufferEnd(d, v) == 32 && SpanStart(d, v) == 17;
  }
}
