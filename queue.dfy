/** The shape a NodeBIO queue keeps between operations, stated on the arena of segments,
    and how each step of Write, Read and Reset changes the bytes the queue holds. */
module BioQueue {
  import opened BioChain

  /** The queue's shape, with `ring` the cycle of segments listed from `read_head_` and
      `live` the number of segments from `read_head_` to `write_head_` inclusive:
      every segment keeps its cursor bounds; the `next_` links form one cycle through all
      segments; every segment before `write_head_` was filled to
      capacity and still holds data; an empty `write_head_` has both cursors at 0; and
      every segment after `write_head_`, up to `read_head_`, is idle. */
  ghost predicate Queue(segs: seq<Buffer>, ring: seq<nat>, live: nat) {
    && ArenaValid(segs)
    && IsRing(segs, ring)
    && 1 <= live <= |ring|
    && (forall k {:trigger segs[ring[k]]} :: 0 <= k < live - 1 ==> Filled(segs[ring[k]]))
    && (segs[ring[live - 1]].readPos == segs[ring[live - 1]].writePos ==> segs[ring[live - 1]].writePos == 0)
    && (forall k {:trigger segs[ring[k]]} :: live <= k < |ring| ==> Idle(segs[ring[k]]))
  }

  /** The bytes the queue holds, oldest first. */
  ghost function Held(segs: seq<Buffer>, ring: seq<nat>, live: nat): seq<Byte>
    requires Queue(segs, ring, live)
  {
    Span(segs, ring[..live])
  }

  /** The held bytes are those of the segments before the `k`-th one from `read_head_`,
      then those of the `k`-th, then those of the rest up to `write_head_`. */
  lemma HeldAt(segs: seq<Buffer>, ring: seq<nat>, live: nat, k: nat)
    requires Queue(segs, ring, live) && k < live
    ensures Held(segs, ring, live) == Span(segs, ring[..k]) + Unread(segs[ring[k]]) + Span(segs, ring[k + 1..live])
  {
    assert ring[..live] == ring[..k] + [ring[k]] + ring[k + 1..live];
    SpanSnoc(segs, ring[..k], ring[k]);
    SpanConcat(segs, ring[..k] + [ring[k]], ring[k + 1..live]);
  }

  /** The unread bytes of the `k`-th segment from `read_head_` sit in the held bytes right
      after those of the segments before it. */
  lemma HeldSegment(segs: seq<Buffer>, ring: seq<nat>, live: nat, k: nat)
    requires Queue(segs, ring, live) && k < live
    ensures |Span(segs, ring[..k])| + |Unread(segs[ring[k]])| == |Span(segs, ring[..k + 1])| <= |Held(segs, ring, live)|
    ensures Held(segs, ring, live)[|Span(segs, ring[..k])|..|Span(segs, ring[..k + 1])|] == Unread(segs[ring[k]])
  {
    HeldAt(segs, ring, live, k);
    SpanSnoc(segs, ring[..k], ring[k]);
    assert ring[..k + 1] == ring[..k] + [ring[k]];
  }

  /** Byte by byte, the held bytes from offset `|Span(segs, ring[..k])|` on are the unread
      bytes of the `k`-th segment from `read_head_`, read out of its `data_`. */
  lemma SegmentBytes(segs: seq<Buffer>, ring: seq<nat>, live: nat, k: nat)
    requires Queue(segs, ring, live) && k < live
    ensures |Span(segs, ring[..k])| + segs[ring[k]].writePos - segs[ring[k]].readPos <= |Held(segs, ring, live)|
    ensures forall j :: |Span(segs, ring[..k])| <= j < |Span(segs, ring[..k])| + segs[ring[k]].writePos - segs[ring[k]].readPos ==>
      Held(segs, ring, live)[j] == segs[ring[k]].data[segs[ring[k]].readPos + (j - |Span(segs, ring[..k])|)]
  {
    var b := segs[ring[k]];
    var at := |Span(segs, ring[..k])|;
    var gap := b.writePos - b.readPos;
    var held := Held(segs, ring, live);
    HeldSegment(segs, ring, live, k);
    assert Unread(b) == b.data[b.readPos..b.writePos] && |Unread(b)| == gap;
    assert held[at..at + gap] == b.data[b.readPos..b.readPos + gap];
    SameSlice(held, b.data, at, b.readPos, gap);
  }

  /** The number of held bytes is the sum of `write_pos_ - read_pos_` over the whole cycle,
      since the segments after `write_head_` are idle. */
  lemma HeldIsTotal(segs: seq<Buffer>, ring: seq<nat>, live: nat)
    requires Queue(segs, ring, live)
    ensures |Held(segs, ring, live)| == Pending(segs, ring)
  {
    assert ring == ring[..live] + ring[live..];
    PendingConcat(segs, ring[..live], ring[live..]);
    forall k | 0 <= k < |ring[live..]|
      ensures Idle(segs[ring[live..][k]])
    {
      assert ring[live..][k] == ring[live + k];
    }
    PendingIdle(segs, ring[live..]);
    SpanLength(segs, ring[..live]);
  }

  /** When every segment of the cycle is idle, every segment of the arena is. */
  lemma AllIdle(segs: seq<Buffer>, ring: seq<nat>)
    requires IsRing(segs, ring)
    requires forall k {:trigger segs[ring[k]]} :: 0 <= k < |ring| ==> Idle(segs[ring[k]])
    ensures forall i :: 0 <= i < |segs| ==> Idle(segs[i])
  {
    forall i | 0 <= i < |segs|
      ensures Idle(segs[i])
    {
      RingCovers(segs, ring, i);
      assert segs[ring[Pos(ring, i)]] == segs[i];
    }
  }

  /** The held bytes start with the unread bytes of `read_head_`. */
  lemma HeldFront(segs: seq<Buffer>, ring: seq<nat>, live: nat)
    requires Queue(segs, ring, live)
    ensures Held(segs, ring, live) == Unread(segs[ring[0]]) + Span(segs, ring[1..live])
  {
    HeldAt(segs, ring, live, 0);
    assert ring[..0] == [];
  }

  /** While the queue holds bytes, `read_head_` holds some of them. */
  lemma FrontHolds(segs: seq<Buffer>, ring: seq<nat>, live: nat)
    requires Queue(segs, ring, live) && Held(segs, ring, live) != []
    ensures segs[ring[0]].readPos < segs[ring[0]].writePos
  {
    if live == 1 {
      HeldFront(segs, ring, live);
      assert ring[1..1] == [];
    }
  }

  /** Copying a chunk that fits into `write_head_` appends it to the held bytes. */
  lemma FillStep(segs: seq<Buffer>, ring: seq<nat>, live: nat, chunk: seq<Byte>)
    requires Queue(segs, ring, live)
    requires segs[ring[live - 1]].writePos + |chunk| <= BufferLength
    ensures Queue(Fill(segs, ring[live - 1], chunk), ring, live)
    ensures Held(Fill(segs, ring[live - 1], chunk), ring, live) == Held(segs, ring, live) + chunk
  {
    var w := ring[live - 1];
    var r := Fill(segs, w, chunk);
    var before := ring[..live - 1];
    FillKeeps(segs, ring, live, chunk);
    FillShape(segs, ring, live, chunk);
    assert ring[..live] == before + [w];
    SpanSnoc(segs, before, w);
    SpanSnoc(r, before, w);
    SpanFrame(segs, r, before);
  }

  /** Filling `write_head_` leaves every other segment of the cycle as it was. */
  lemma FillKeeps(segs: seq<Buffer>, ring: seq<nat>, live: nat, chunk: seq<Byte>)
    requires ArenaValid(segs) && IsRing(segs, ring) && 1 <= live <= |ring|
    requires segs[ring[live - 1]].writePos + |chunk| <= BufferLength
    ensures forall k :: 0 <= k < live - 1 ==> Fill(segs, ring[live - 1], chunk)[ring[k]] == segs[ring[k]]
    ensures forall k :: live <= k < |ring| ==> Fill(segs, ring[live - 1], chunk)[ring[k]] == segs[ring[k]]
  {
    forall k | 0 <= k < |ring| && k != live - 1
      ensures Fill(segs, ring[live - 1], chunk)[ring[k]] == segs[ring[k]]
    {
      assert Pos(ring, ring[k]) == k && Pos(ring, ring[live - 1]) == live - 1;
    }
  }

  /** Filling `write_head_` keeps the cycle and the queue's shape. */
  lemma FillShape(segs: seq<Buffer>, ring: seq<nat>, live: nat, chunk: seq<Byte>)
    requires Queue(segs, ring, live)
    requires segs[ring[live - 1]].writePos + |chunk| <= BufferLength
    requires forall k :: 0 <= k < live - 1 ==> Fill(segs, ring[live - 1], chunk)[ring[k]] == segs[ring[k]]
    requires forall k :: live <= k < |ring| ==> Fill(segs, ring[live - 1], chunk)[ring[k]] == segs[ring[k]]
    ensures Queue(Fill(segs, ring[live - 1], chunk), ring, live)
  {
    RingRelink(segs, Fill(segs, ring[live - 1], chunk), ring);
  }

  /** When `write_head_` is full and the segment linked after it is not `read_head_`, that
      segment is idle: recycling it and making it `write_head_` keeps the held bytes. */
  lemma ReuseStep(segs: seq<Buffer>, ring: seq<nat>, live: nat)
    requires Queue(segs, ring, live)
    requires segs[ring[live - 1]].writePos == BufferLength && segs[ring[live - 1]].next != ring[0]
    ensures live < |ring| && segs[ring[live - 1]].next == ring[live]
    ensures Idle(segs[ring[live]])
    ensures Queue(Recycle(segs, ring[live]), ring, live + 1)
    ensures Held(Recycle(segs, ring[live]), ring, live + 1) == Held(segs, ring, live)
  {
    var n := ring[live];
    var r := Recycle(segs, n);
    RingRelink(segs, r, ring);
    forall k | 0 <= k < |ring| && k != live
      ensures r[ring[k]] == segs[ring[k]]
    {
      assert Pos(ring, ring[k]) == k && Pos(ring, n) == live;
    }
    SpanFrame(segs, r, ring[..live]);
    assert ring[..live + 1] == ring[..live] + [n];
    SpanSnoc(r, ring[..live], n);
  }

  /** When `write_head_` is full and links back to `read_head_`, a new segment linked after
      it becomes `write_head_`, and the held bytes stay the same. */
  lemma AllocStep(segs: seq<Buffer>, ring: seq<nat>, live: nat)
    requires Queue(segs, ring, live)
    requires segs[ring[live - 1]].writePos == BufferLength && segs[ring[live - 1]].next == ring[0]
    ensures InsertAt(ring, live, |segs|)[0] == ring[0]
    ensures InsertAt(ring, live, |segs|)[live] == |segs|
    ensures Queue(LinkAfter(segs, ring[live - 1]), InsertAt(ring, live, |segs|), live + 1)
    ensures Held(LinkAfter(segs, ring[live - 1]), InsertAt(ring, live, |segs|), live + 1)
         == Held(segs, ring, live)
  {
    var m: nat := |segs|;
    var r := LinkAfter(segs, ring[live - 1]);
    AllocShape(segs, ring, live);
    assert InsertAt(ring, live, m)[..live + 1] == ring[..live] + [m];
    SpanFrame(segs, r, ring[..live]);
    SpanSnoc(r, ring[..live], m);
  }

  /** The shape half of AllocStep: with the new segment inserted after `write_head_`, the
      cycle one segment longer is a queue. */
  lemma AllocShape(segs: seq<Buffer>, ring: seq<nat>, live: nat)
    requires Queue(segs, ring, live)
    requires segs[ring[live - 1]].writePos == BufferLength && segs[ring[live - 1]].next == ring[0]
    ensures Queue(LinkAfter(segs, ring[live - 1]), InsertAt(ring, live, |segs|), live + 1)
  {
    var m: nat := |segs|;
    var r := LinkAfter(segs, ring[live - 1]);
    var ring' := InsertAt(ring, live, m);
    RingInsert(segs, ring, live);
    forall k | 0 <= k < live
      ensures Filled(r[ring'[k]])
    {
      assert ring'[k] == ring[k];
      assert Filled(segs[ring[k]]);
    }
    assert ring'[live] == m;
  }

  /** Reading `count` bytes from `read_head_` without draining it, or draining the last
      segment that holds data, drops them from the front of the held bytes. */
  lemma ConsumeStep(segs: seq<Buffer>, ring: seq<nat>, live: nat, count: nat)
    requires Queue(segs, ring, live)
    requires 0 < count <= segs[ring[0]].writePos - segs[ring[0]].readPos
    requires count < segs[ring[0]].writePos - segs[ring[0]].readPos || live == 1
    ensures Queue(Consume(segs, ring[0], count), ring, live)
    ensures Held(Consume(segs, ring[0], count), ring, live) == Held(segs, ring, live)[count..]
  {
    var r := Consume(segs, ring[0], count);
    ConsumeShape(segs, ring, live, count);
    forall k | 1 <= k < live
      ensures Unread(r[ring[..live][k]]) == Unread(segs[ring[..live][k]])
    {
      assert ring[..live][k] == ring[k];
    }
    SpanDropFront(segs, r, ring[..live], count);
  }

  /** The shape half of ConsumeStep: the cycle with `read_head_` consumed is a queue, and
      no other segment changed. */
  lemma ConsumeShape(segs: seq<Buffer>, ring: seq<nat>, live: nat, count: nat)
    requires Queue(segs, ring, live)
    requires 0 < count <= segs[ring[0]].writePos - segs[ring[0]].readPos
    requires count < segs[ring[0]].writePos - segs[ring[0]].readPos || live == 1
    ensures Queue(Consume(segs, ring[0], count), ring, live)
    ensures forall k :: 1 <= k < |ring| ==> Consume(segs, ring[0], count)[ring[k]] == segs[ring[k]]
  {
    ConsumeKeeps(segs, ring, live, count);
    RingRelink(segs, Consume(segs, ring[0], count), ring);
  }

  /** Consuming from `read_head_` changes no other segment. */
  lemma ConsumeKeeps(segs: seq<Buffer>, ring: seq<nat>, live: nat, count: nat)
    requires Queue(segs, ring, live)
    requires count <= segs[ring[0]].writePos - segs[ring[0]].readPos
    ensures forall k :: 1 <= k < |ring| ==> Consume(segs, ring[0], count)[ring[k]] == segs[ring[k]]
  {
    forall k | 1 <= k < |ring|
      ensures Consume(segs, ring[0], count)[ring[k]] == segs[ring[k]]
    {
      assert Pos(ring, ring[k]) == k && Pos(ring, ring[0]) == 0;
    }
  }

  /** Draining `read_head_` while a later segment holds data moves `read_head_` on to the
      next segment, the drained one going to the back of the cycle, and drops the drained
      bytes from the front of the held bytes. */
  lemma AdvanceStep(segs: seq<Buffer>, ring: seq<nat>, live: nat, count: nat)
    requires Queue(segs, ring, live) && live > 1
    requires count == segs[ring[0]].writePos - segs[ring[0]].readPos
    ensures segs[ring[0]].next == ring[1]
    ensures Queue(Consume(segs, ring[0], count), Rotate(ring, 1), live - 1)
    ensures Held(Consume(segs, ring[0], count), Rotate(ring, 1), live - 1) == Held(segs, ring, live)[count..]
  {
    var r := Consume(segs, ring[0], count);
    var ring' := Rotate(ring, 1);
    AdvanceShape(segs, ring, live, count);
    ConsumeKeeps(segs, ring, live, count);
    HeldFront(segs, ring, live);
    assert ring'[..live - 1] == ring[1..live];
    SpanFrame(segs, r, ring[1..live]);
  }

  /** The shape half of AdvanceStep: the rotated cycle, one segment shorter, is a queue. */
  lemma AdvanceShape(segs: seq<Buffer>, ring: seq<nat>, live: nat, count: nat)
    requires Queue(segs, ring, live) && live > 1
    requires count == segs[ring[0]].writePos - segs[ring[0]].readPos
    ensures segs[ring[0]].next == ring[1]
    ensures Queue(Consume(segs, ring[0], count), Rotate(ring, 1), live - 1)
  {
    var r := Consume(segs, ring[0], count);
    var ring' := Rotate(ring, 1);
    assert segs[ring[0]].next == ring[1];
    RingRelink(segs, r, ring);
    RingRotate(r, ring, 1);
    ConsumeKeeps(segs, ring, live, count);
    forall k | 0 <= k < live - 2
      ensures Filled(r[ring'[k]])
    {
      assert ring'[k] == ring[k + 1];
      assert Filled(segs[ring[k + 1]]);
    }
    assert ring'[live - 2] == ring[live - 1];
    forall k | live - 1 <= k < |ring|
      ensures Idle(r[ring'[k]])
    {
      if k < |ring| - 1 {
        assert ring'[k] == ring[k + 1];
        assert Idle(segs[ring[k + 1]]);
      } else {
        assert ring'[k] == ring[0];
        assert Unread(r[ring[0]]) == [];
      }
    }
  }

  /** Once every segment of the cycle is idle, listing the cycle from the sentinel gives an
      empty queue whose `read_head_` and `write_head_` are the sentinel. */
  lemma ResetStep(segs: seq<Buffer>, ring: seq<nat>, p: nat)
    requires ArenaValid(segs) && IsRing(segs, ring) && p < |ring| && ring[p] == Sentinel
    requires forall k {:trigger segs[ring[k]]} :: 0 <= k < |ring| ==> Idle(segs[ring[k]])
    ensures Queue(segs, Rotate(ring, p), 1)
    ensures Rotate(ring, p)[0] == Sentinel
    ensures Held(segs, Rotate(ring, p), 1) == []
  {
    var ring' := Rotate(ring, p);
    var n := |ring|;
    RingRotate(segs, ring, p);
    forall k | 0 <= k < n
      ensures Idle(segs[ring'[k]])
    {
      var i := if k < n - p then k + p else k - (n - p);
      assert ring'[k] == ring[i];
      assert Idle(segs[ring[i]]);
    }
    assert ring'[..1] == [Sentinel];
    assert Span(segs, [Sentinel]) == Unread(segs[Sentinel]) + Span(segs, []);
  }
}
