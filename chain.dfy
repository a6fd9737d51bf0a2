/** The values behind NodeBIO's byte queue: the fixed-size segment (`NodeBIO::Buffer`),
    the arena that holds every segment at an index, and the circular chain that the
    segments' `next` links form through the arena. */
module BioChain {

  /** One byte of buffered data (a `char` in the source). */
  newtype Byte = x: int | 0 <= x < 0x100

  /** `kBufferLength`: the capacity of every segment, 16 KiB. */
  const BufferLength: nat := 16 * 1024

  /** Arena index of the permanent sentinel segment `head_`. */
  const Sentinel: nat := 0

  /** A segment: the cursors `read_pos_` and `write_pos_`, the arena index of the
      segment `next_` points to, and the storage `data_`. */
  datatype Buffer = Buffer(readPos: nat, writePos: nat, next: nat, data: seq<Byte>)

  /** The cursor bounds every segment keeps: 0 <= read_pos_ <= write_pos_ <= kBufferLength. */
  ghost predicate BufferValid(b: Buffer) {
    b.readPos <= b.writePos <= BufferLength && |b.data| == BufferLength
  }

  /** The bytes of a segment that have been written and not yet read. */
  function Unread(b: Buffer): seq<Byte>
    requires BufferValid(b)
  {
    b.data[b.readPos..b.writePos]
  }

  /** A segment that was filled to capacity and still holds unread bytes. */
  ghost predicate Filled(b: Buffer) {
    b.readPos < b.writePos == BufferLength
  }

  /** A segment with both cursors back at 0: it holds nothing and counts for nothing in
      `length_`. */
  ghost predicate Idle(b: Buffer) {
    b.readPos == 0 && b.writePos == 0
  }

  /** `Buffer()`: a new segment, both cursors at 0, linked to `next`. */
  function NewBuffer(next: nat): (b: Buffer)
    ensures BufferValid(b) && b.next == next
    ensures b.readPos == 0 && b.writePos == 0 && Unread(b) == []
  {
    Buffer(0, 0, next, seq(BufferLength, _ => 0))
  }

  /** Copy `src` into `dst` starting at offset `at` (the `memcpy` into a segment). */
  function Splice(dst: seq<Byte>, at: nat, src: seq<Byte>): (r: seq<Byte>)
    requires at + |src| <= |dst|
    ensures |r| == |dst|
    ensures r[..at] == dst[..at] && r[at..at + |src|] == src && r[at + |src|..] == dst[at + |src|..]
  {
    dst[..at] + src + dst[at + |src|..]
  }

  /** Two equal slices of length `gap`, from `i` in `s` and from `j` in `t`, agree byte by byte. */
  lemma SameSlice(s: seq<Byte>, t: seq<Byte>, i: nat, j: nat, gap: nat)
    requires i + gap <= |s| && j + gap <= |t| && s[i..i + gap] == t[j..j + gap]
    ensures forall x :: i <= x < i + gap ==> s[x] == t[j + (x - i)]
  {
    forall x | i <= x < i + gap
      ensures s[x] == t[j + (x - i)]
    {
      assert s[i..i + gap][x - i] == t[j..j + gap][x - i];
    }
  }

  /** Every segment of the arena keeps its cursor bounds and links inside the arena. */
  ghost predicate ArenaValid(segs: seq<Buffer>) {
    forall i :: 0 <= i < |segs| ==> BufferValid(segs[i]) && segs[i].next < |segs|
  }

  /** Every index of `ids` names a segment of the arena. */
  ghost predicate InArena(segs: seq<Buffer>, ids: seq<nat>) {
    forall k :: 0 <= k < |ids| ==> ids[k] < |segs|
  }

  /** The unread bytes of the segments `ids`, in that order. */
  ghost function Span(segs: seq<Buffer>, ids: seq<nat>): seq<Byte>
    requires ArenaValid(segs) && InArena(segs, ids)
    decreases |ids|
  {
    if ids == [] then [] else Unread(segs[ids[0]]) + Span(segs, ids[1..])
  }

  /** The sum of `write_pos_ - read_pos_` over the segments `ids`. */
  function Pending(segs: seq<Buffer>, ids: seq<nat>): nat
    requires ArenaValid(segs) && InArena(segs, ids)
    decreases |ids|
  {
    if ids == [] then 0
    else segs[ids[0]].writePos - segs[ids[0]].readPos + Pending(segs, ids[1..])
  }

  /** The number of unread bytes of a run of segments is the sum of their cursor gaps. */
  lemma {:induction false} SpanLength(segs: seq<Buffer>, ids: seq<nat>)
    requires ArenaValid(segs) && InArena(segs, ids)
    ensures |Span(segs, ids)| == Pending(segs, ids)
    decreases |ids|
  {
    if ids != [] {
      SpanLength(segs, ids[1..]);
    }
  }

  /** The cursor gaps of two consecutive runs of segments add up. */
  lemma {:induction false} PendingConcat(segs: seq<Buffer>, a: seq<nat>, b: seq<nat>)
    requires ArenaValid(segs) && InArena(segs, a) && InArena(segs, b)
    ensures InArena(segs, a + b)
    ensures Pending(segs, a + b) == Pending(segs, a) + Pending(segs, b)
    decreases |a|
  {
    if a == [] {
      assert a + b == b;
    } else {
      var c := a + b;
      assert c[0] == a[0] && c[1..] == a[1..] + b;
      PendingConcat(segs, a[1..], b);
    }
  }

  /** Listing the same segments from another starting point keeps their sum of gaps. */
  lemma PendingRotate(segs: seq<Buffer>, ids: seq<nat>, p: nat)
    requires ArenaValid(segs) && InArena(segs, ids) && p <= |ids|
    ensures InArena(segs, Rotate(ids, p))
    ensures Pending(segs, Rotate(ids, p)) == Pending(segs, ids)
  {
    assert ids == ids[..p] + ids[p..];
    PendingConcat(segs, ids[..p], ids[p..]);
    PendingConcat(segs, ids[p..], ids[..p]);
  }

  /** A run of idle segments has no cursor gap at all. */
  lemma {:induction false} PendingIdle(segs: seq<Buffer>, ids: seq<nat>)
    requires ArenaValid(segs) && InArena(segs, ids)
    requires forall k :: 0 <= k < |ids| ==> Idle(segs[ids[k]])
    ensures Pending(segs, ids) == 0
    decreases |ids|
  {
    if ids != [] {
      assert Idle(segs[ids[0]]);
      PendingIdle(segs, ids[1..]);
    }
  }

  /** The unread bytes of two consecutive runs of segments are those of the first
      followed by those of the second. */
  lemma {:induction false} SpanConcat(segs: seq<Buffer>, a: seq<nat>, b: seq<nat>)
    requires ArenaValid(segs) && InArena(segs, a) && InArena(segs, b)
    ensures InArena(segs, a + b)
    ensures Span(segs, a + b) == Span(segs, a) + Span(segs, b)
    decreases |a|
  {
    if a == [] {
      assert a + b == b;
    } else {
      var c := a + b;
      assert c[0] == a[0] && c[1..] == a[1..] + b;
      SpanConcat(segs, a[1..], b);
      assert Span(segs, c) == Unread(segs[a[0]]) + Span(segs, a[1..] + b);
    }
  }

  /** The unread bytes of a run extended by one segment end with that segment's unread bytes. */
  lemma SpanSnoc(segs: seq<Buffer>, ids: seq<nat>, j: nat)
    requires ArenaValid(segs) && InArena(segs, ids) && j < |segs|
    ensures InArena(segs, ids + [j])
    ensures Span(segs, ids + [j]) == Span(segs, ids) + Unread(segs[j])
  {
    SpanConcat(segs, ids, [j]);
    assert [j][1..] == [];
  }

  /** The unread bytes of a run depend only on the unread bytes of its own segments. */
  lemma {:induction false} SpanFrame(s1: seq<Buffer>, s2: seq<Buffer>, ids: seq<nat>)
    requires ArenaValid(s1) && InArena(s1, ids) && ArenaValid(s2) && InArena(s2, ids)
    requires forall k :: 0 <= k < |ids| ==> Unread(s1[ids[k]]) == Unread(s2[ids[k]])
    ensures Span(s1, ids) == Span(s2, ids)
    decreases |ids|
  {
    if ids != [] {
      SpanFrame(s1, s2, ids[1..]);
    }
  }

  /** Dropping `count` bytes from the first segment of a run, while the other segments keep
      their unread bytes, drops them from the front of the run's unread bytes. */
  lemma SpanDropFront(s1: seq<Buffer>, s2: seq<Buffer>, ids: seq<nat>, count: nat)
    requires ArenaValid(s1) && InArena(s1, ids) && ArenaValid(s2) && InArena(s2, ids) && ids != []
    requires count <= |Unread(s1[ids[0]])| && Unread(s2[ids[0]]) == Unread(s1[ids[0]])[count..]
    requires forall k :: 1 <= k < |ids| ==> Unread(s2[ids[k]]) == Unread(s1[ids[k]])
    ensures Span(s2, ids) == Span(s1, ids)[count..]
  {
    var head, rest := Unread(s1[ids[0]]), Span(s1, ids[1..]);
    assert Span(s2, ids[1..]) == rest by {
      forall k | 0 <= k < |ids[1..]|
        ensures Unread(s1[ids[1..][k]]) == Unread(s2[ids[1..][k]])
      {
        assert ids[1..][k] == ids[k + 1];
      }
      SpanFrame(s1, s2, ids[1..]);
    }
    assert Span(s1, ids) == head + rest;
    assert (head + rest)[count..] == head[count..] + rest;
  }

  /** A position of `x` in `ids`; where `ids` has no repeats, the only one. */
  ghost function Pos(ids: seq<nat>, x: nat): (k: nat)
    requires x in ids
    ensures k < |ids| && ids[k] == x
  {
    var k :| 0 <= k < |ids| && ids[k] == x; k
  }

  /** No entry of `ids` appears twice: each stands at its own position. */
  ghost predicate Distinct(ids: seq<nat>) {
    forall k :: 0 <= k < |ids| ==> Pos(ids, ids[k]) == k
  }

  /** A list whose entries differ pairwise has no repeats. */
  lemma PosDistinct(ids: seq<nat>)
    requires forall k, l :: 0 <= k < l < |ids| ==> ids[k] != ids[l]
    ensures Distinct(ids)
  {
    forall k | 0 <= k < |ids|
      ensures Pos(ids, ids[k]) == k
    {
      var j := Pos(ids, ids[k]);
      assert ids[j] == ids[k];
    }
  }

  /** Rotating a list without repeats keeps it without repeats. */
  lemma DistinctRotate(ids: seq<nat>, p: nat)
    requires Distinct(ids) && p <= |ids|
    ensures Distinct(Rotate(ids, p))
  {
    var r, n := Rotate(ids, p), |ids|;
    forall k, l | 0 <= k < l < n
      ensures r[k] != r[l]
    {
      var i, j := (if k < n - p then k + p else k - (n - p)), (if l < n - p then l + p else l - (n - p));
      assert r[k] == ids[i] && r[l] == ids[j] && i != j;
      assert Pos(ids, ids[i]) == i && Pos(ids, ids[j]) == j;
    }
    PosDistinct(r);
  }

  /** Inserting a new entry into a list without repeats keeps it without repeats. */
  lemma DistinctInsert(ids: seq<nat>, p: nat, x: nat)
    requires Distinct(ids) && p <= |ids| && x !in ids
    ensures Distinct(InsertAt(ids, p, x))
  {
    var r, n := InsertAt(ids, p, x), |ids|;
    forall k, l | 0 <= k < l < n + 1
      ensures r[k] != r[l]
    {
      if l == p {
        assert r[k] == ids[k];
      } else if k == p {
        assert r[l] == ids[l - 1];
      } else {
        var i, j := (if k < p then k else k - 1), (if l < p then l else l - 1);
        assert r[k] == ids[i] && r[l] == ids[j] && i != j;
        assert Pos(ids, ids[i]) == i && Pos(ids, ids[j]) == j;
      }
    }
    PosDistinct(r);
  }

  /** `ring` lists every segment of the arena exactly once, in the order of the `next`
      links, and the last one links back to the first: the chain is one cycle. */
  ghost predicate IsRing(segs: seq<Buffer>, ring: seq<nat>) {
    && |ring| == |segs| > 0
    && InArena(segs, ring)
    && Distinct(ring)
    && (forall k {:trigger segs[ring[k]]} :: 0 <= k < |ring| - 1 ==> segs[ring[k]].next == ring[k + 1])
    && segs[ring[|ring| - 1]].next == ring[0]
  }

  /** The list `ids` started from its `p`-th entry, the entries before it moved to the end. */
  ghost function Rotate(ids: seq<nat>, p: nat): (r: seq<nat>)
    requires p <= |ids|
    ensures |r| == |ids|
    ensures forall k :: 0 <= k < |ids| - p ==> r[k] == ids[k + p]
    ensures forall k :: |ids| - p <= k < |ids| ==> r[k] == ids[k - (|ids| - p)]
  {
    ids[p..] + ids[..p]
  }

  /** The list `ids` with `x` inserted as its `p`-th entry. */
  ghost function InsertAt(ids: seq<nat>, p: nat, x: nat): (r: seq<nat>)
    requires p <= |ids|
    ensures |r| == |ids| + 1 && r[p] == x && r[..p + 1] == ids[..p] + [x]
    ensures forall k :: 0 <= k < p ==> r[k] == ids[k]
    ensures forall k :: p < k < |r| ==> r[k] == ids[k - 1]
  {
    ids[..p] + [x] + ids[p..]
  }

  /** A list without repeats whose entries are all below `m` has at most `m` entries. */
  lemma {:induction false} DistinctBelow(ids: seq<nat>, m: nat)
    requires forall k, l :: 0 <= k < l < |ids| ==> ids[k] != ids[l]
    requires forall k :: 0 <= k < |ids| ==> ids[k] < m
    ensures |ids| <= m
    decreases m
  {
    if ids != [] {
      assert ids[0] < m;
      if m - 1 in ids {
        var p :| 0 <= p < |ids| && ids[p] == m - 1;
        var rest := ids[..p] + ids[p + 1..];
        assert forall k :: 0 <= k < |rest| ==> rest[k] == ids[if k < p then k else k + 1];
        DistinctBelow(rest, m - 1);
      } else {
        DistinctBelow(ids, m - 1);
      }
    }
  }

  /** A list of `n` entries without repeats, all below `n`, takes every value below `n`. */
  lemma Covers(ids: seq<nat>, x: nat)
    requires forall k, l :: 0 <= k < l < |ids| ==> ids[k] != ids[l]
    requires forall k :: 0 <= k < |ids| ==> ids[k] < |ids|
    requires x < |ids|
    ensures x in ids
  {
    if x !in ids {
      // Closing the gap at `x` gives |ids| entries without repeats, all below |ids| - 1.
      var squeezed := seq(|ids|, k requires 0 <= k < |ids| => if ids[k] > x then ids[k] - 1 else ids[k]);
      DistinctBelow(squeezed, |ids| - 1);
    }
  }

  /** The cycle passes through every segment of the arena: no segment sits on a chain of
      its own. */
  lemma RingCovers(segs: seq<Buffer>, ring: seq<nat>, i: nat)
    requires IsRing(segs, ring) && i < |segs|
    ensures i in ring
  {
    forall k, l | 0 <= k < l < |ring|
      ensures ring[k] != ring[l]
    {
      assert Pos(ring, ring[k]) == k && Pos(ring, ring[l]) == l;
    }
    Covers(ring, i);
  }

  /** Listing the same cycle from another starting segment is again a listing of the cycle. */
  lemma RingRotate(segs: seq<Buffer>, ring: seq<nat>, p: nat)
    requires IsRing(segs, ring) && p < |ring|
    ensures IsRing(segs, Rotate(ring, p))
  {
    var r := Rotate(ring, p);
    var n := |ring|;
    DistinctRotate(ring, p);
    forall k | 0 <= k < n - 1
      ensures segs[r[k]].next == r[k + 1]
    {
      if k == n - p - 1 {
        assert r[k] == ring[n - 1] && r[k + 1] == ring[0];
      } else if k < n - p - 1 {
        assert r[k] == ring[k + p] && r[k + 1] == ring[k + p + 1];
      } else {
        assert r[k] == ring[k - (n - p)] && r[k + 1] == ring[k + 1 - (n - p)];
      }
    }
    assert r[n - 1] == ring[if p == 0 then n - 1 else p - 1];
  }

  /** Changing segments without touching their links keeps the cycle. */
  lemma RingRelink(s1: seq<Buffer>, s2: seq<Buffer>, ring: seq<nat>)
    requires IsRing(s1, ring) && |s2| == |s1|
    requires forall i :: 0 <= i < |s1| ==> s2[i].next == s1[i].next
    ensures IsRing(s2, ring)
  {
  }

  /** Allocate a new segment at the end of the arena and link it right after segment `a`
      (what Write does when the segment after the write head still holds data). */
  function LinkAfter(segs: seq<Buffer>, a: nat): (r: seq<Buffer>)
    requires ArenaValid(segs) && a < |segs|
    ensures ArenaValid(r) && |r| == |segs| + 1
    ensures r[a].next == |segs| && r[|segs|].next == segs[a].next && Unread(r[|segs|]) == []
    ensures r[|segs|].readPos == 0 && r[|segs|].writePos == 0
    ensures forall i :: 0 <= i < |segs| ==> Unread(r[i]) == Unread(segs[i])
    ensures forall i :: 0 <= i < |segs| && i != a ==> r[i] == segs[i]
  {
    segs[a := segs[a].(next := |segs|)] + [NewBuffer(segs[a].next)]
  }

  /** Copy `chunk` into segment `w` at its `write_pos_` and advance `write_pos_` past it. */
  function Fill(segs: seq<Buffer>, w: nat, chunk: seq<Byte>): (r: seq<Buffer>)
    requires ArenaValid(segs) && w < |segs| && segs[w].writePos + |chunk| <= BufferLength
    ensures ArenaValid(r) && |r| == |segs|
    ensures Unread(r[w]) == Unread(segs[w]) + chunk
    ensures r[w].readPos == segs[w].readPos && r[w].writePos == segs[w].writePos + |chunk|
    ensures forall i :: 0 <= i < |segs| ==> r[i].next == segs[i].next
    ensures forall i :: 0 <= i < |segs| && i != w ==> r[i] == segs[i]
  {
    var b := segs[w];
    var b' := b.(data := Splice(b.data, b.writePos, chunk), writePos := b.writePos + |chunk|);
    assert b'.data[b.readPos..b'.writePos] == b'.data[b.readPos..b.writePos] + b'.data[b.writePos..b'.writePos];
    assert b'.data[b.readPos..b.writePos] == b'.data[..b.writePos][b.readPos..];
    segs[w := b']
  }

  /** Put both cursors of segment `i` back to 0, so that it holds nothing and can be reused. */
  function Recycle(segs: seq<Buffer>, i: nat): (r: seq<Buffer>)
    requires ArenaValid(segs) && i < |segs|
    ensures ArenaValid(r) && |r| == |segs|
    ensures r[i].readPos == 0 && r[i].writePos == 0 && Unread(r[i]) == []
    ensures forall j :: 0 <= j < |segs| ==> r[j].next == segs[j].next
    ensures forall j :: 0 <= j < |segs| && j != i ==> r[j] == segs[j]
  {
    segs[i := segs[i].(readPos := 0, writePos := 0)]
  }

  /** Move the `read_pos_` of segment `i` past `count` bytes; a segment drained that way
      gets both cursors back to 0. */
  function Consume(segs: seq<Buffer>, i: nat, count: nat): (r: seq<Buffer>)
    requires ArenaValid(segs) && i < |segs| && count <= segs[i].writePos - segs[i].readPos
    ensures ArenaValid(r) && |r| == |segs|
    ensures Unread(r[i]) == Unread(segs[i])[count..]
    ensures r[i].readPos == r[i].writePos ==> r[i].writePos == 0
    ensures r[i].readPos < r[i].writePos ==> r[i].writePos == segs[i].writePos
    ensures forall j :: 0 <= j < |segs| ==> r[j].next == segs[j].next
    ensures forall j :: 0 <= j < |segs| && j != i ==> r[j] == segs[j]
  {
    var b := segs[i].(readPos := segs[i].readPos + count);
    segs[i := if b.readPos == b.writePos then b.(readPos := 0, writePos := 0) else b]
  }

  /** Linking a new segment after the `p`-th one of the cycle inserts it into the cycle there. */
  lemma RingInsert(segs: seq<Buffer>, ring: seq<nat>, p: nat)
    requires ArenaValid(segs) && IsRing(segs, ring) && 1 <= p <= |ring|
    ensures IsRing(LinkAfter(segs, ring[p - 1]), InsertAt(ring, p, |segs|))
  {
    var t := LinkAfter(segs, ring[p - 1]);
    var r := InsertAt(ring, p, |segs|);
    InsertInArena(segs, ring, p);
    DistinctInsert(ring, p, |segs|);
    forall k | 0 <= k < |ring|
      ensures t[r[k]].next == r[k + 1]
    {
      InsertLinkAt(segs, ring, p, k);
    }
    InsertLastLink(segs, ring, p);
  }

  /** The inserted cycle names only segments of the grown arena, and the new segment was not
      on the cycle before. */
  lemma InsertInArena(segs: seq<Buffer>, ring: seq<nat>, p: nat)
    requires ArenaValid(segs) && IsRing(segs, ring) && 1 <= p <= |ring|
    ensures |segs| !in ring
    ensures InArena(LinkAfter(segs, ring[p - 1]), InsertAt(ring, p, |segs|))
  {
    var r := InsertAt(ring, p, |segs|);
    forall k | 0 <= k < |r|
      ensures r[k] <= |segs|
    {
    }
  }

  /** After the insertion, the last segment of the cycle links back to the first. */
  lemma InsertLastLink(segs: seq<Buffer>, ring: seq<nat>, p: nat)
    requires ArenaValid(segs) && IsRing(segs, ring) && 1 <= p <= |ring|
    ensures LinkAfter(segs, ring[p - 1])[InsertAt(ring, p, |segs|)[|ring|]].next == InsertAt(ring, p, |segs|)[0]
  {
    var n := |ring|;
    var a := ring[p - 1];
    var r := InsertAt(ring, p, |segs|);
    if p < n {
      assert r[n] == ring[n - 1] && r[0] == ring[0];
      assert Pos(ring, ring[n - 1]) == n - 1 && Pos(ring, a) == p - 1;
    } else {
      assert r[n] == |segs| && r[0] == ring[0];
    }
  }

  /** After the insertion, the `k`-th segment of the cycle links to the `(k + 1)`-th. */
  lemma InsertLinkAt(segs: seq<Buffer>, ring: seq<nat>, p: nat, k: nat)
    requires ArenaValid(segs) && IsRing(segs, ring) && 1 <= p <= |ring| && k < |ring|
    ensures LinkAfter(segs, ring[p - 1])[InsertAt(ring, p, |segs|)[k]].next == InsertAt(ring, p, |segs|)[k + 1]
  {
    var m: nat := |segs|;
    var a := ring[p - 1];
    var t := LinkAfter(segs, a);
    var r := InsertAt(ring, p, m);
    if k < p - 1 {
      assert r[k] == ring[k] && r[k + 1] == ring[k + 1];
      assert Pos(ring, ring[k]) == k && Pos(ring, a) == p - 1;
      assert t[r[k]] == segs[ring[k]];
    } else if k == p - 1 {
      assert r[k] == a && r[k + 1] == m;
    } else if k == p {
      assert r[k] == m && r[k + 1] == ring[p];
    } else {
      assert r[k] == ring[k - 1] && r[k + 1] == ring[k];
      assert Pos(ring, ring[k - 1]) == k - 1 && Pos(ring, a) == p - 1;
      assert t[r[k]] == segs[ring[k - 1]];
    }
  }

  /** The segment reached from `from` by following `next_` `hops` times. */
  function Follow(segs: seq<Buffer>, from: nat, hops: nat): (to: nat)
    requires ArenaValid(segs) && from < |segs|
    ensures to < |segs|
    decreases hops
  {
    if hops == 0 then from else Follow(segs, segs[from].next, hops - 1)
  }

  /** The `steps` segments met when walking the chain from `from`, `from` first. */
  function Walk(segs: seq<Buffer>, from: nat, steps: nat): (ids: seq<nat>)
    requires ArenaValid(segs) && from < |segs|
    ensures |ids| == steps && InArena(segs, ids)
    ensures steps > 0 ==> ids[0] == from && ids[steps - 1] == Follow(segs, from, steps - 1)
    decreases steps
  {
    if steps == 0 then [] else [from] + Walk(segs, segs[from].next, steps - 1)
  }

  /** The `h`-th segment met on a walk is the one `h` hops away from its start. */
  lemma {:induction false} WalkFollow(segs: seq<Buffer>, from: nat, steps: nat, h: nat)
    requires ArenaValid(segs) && from < |segs| && h < steps
    ensures Walk(segs, from, steps)[h] == Follow(segs, from, h)
    decreases h
  {
    if h > 0 {
      WalkFollow(segs, segs[from].next, steps - 1, h - 1);
    }
  }

  /** Following two runs of hops is following their sum. */
  lemma {:induction false} FollowAdd(segs: seq<Buffer>, from: nat, h1: nat, h2: nat)
    requires ArenaValid(segs) && from < |segs|
    ensures Follow(segs, from, h1 + h2) == Follow(segs, Follow(segs, from, h1), h2)
    decreases h1
  {
    if h1 > 0 {
      FollowAdd(segs, segs[from].next, h1 - 1, h2);
    }
  }

  /** Along the cycle, `m` hops from its `k`-th segment lead to its `(k + m)`-th segment. */
  lemma {:induction false} FollowRing(segs: seq<Buffer>, ring: seq<nat>, k: nat, m: nat)
    requires ArenaValid(segs) && IsRing(segs, ring) && k + m < |ring|
    ensures Follow(segs, ring[k], m) == ring[k + m]
    decreases m
  {
    if m > 0 {
      FollowRing(segs, ring, k + 1, m - 1);
    }
  }

  /** Walking `m` segments from the `k`-th one of the cycle meets exactly `ring[k..k + m]`. */
  lemma {:induction false} WalkRing(segs: seq<Buffer>, ring: seq<nat>, k: nat, m: nat)
    requires ArenaValid(segs) && IsRing(segs, ring) && k < |ring| && k + m <= |ring|
    ensures Walk(segs, ring[k], m) == ring[k..k + m]
    decreases m
  {
    if m > 1 {
      WalkRing(segs, ring, k + 1, m - 1);
    }
  }

  /** Walking the whole cycle from its `p`-th segment meets the cycle listed from there. */
  lemma RingWalk(segs: seq<Buffer>, ring: seq<nat>, p: nat)
    requires ArenaValid(segs) && IsRing(segs, ring) && p < |ring|
    ensures Walk(segs, ring[p], |ring|) == Rotate(ring, p)
  {
    var cycle := Rotate(ring, p);
    RingRotate(segs, ring, p);
    WalkRing(segs, cycle, 0, |ring|);
    assert cycle[0..|ring|] == cycle;
  }

  /** From any segment of the cycle, as many hops as there are segments lead back to it. */
  lemma RingCloses(segs: seq<Buffer>, ring: seq<nat>, k: nat)
    requires ArenaValid(segs) && IsRing(segs, ring) && k < |ring|
    ensures Follow(segs, ring[k], |ring|) == ring[k]
  {
    var n := |ring|;
    FollowAdd(segs, ring[k], n - 1 - k, 1 + k);
    FollowRing(segs, ring, k, n - 1 - k);
    FollowAdd(segs, ring[n - 1], 1, k);
    assert Follow(segs, ring[n - 1], 1) == ring[0];
    FollowRing(segs, ring, 0, k);
  }

  /** Walking as many segments as there are from any segment meets every segment: the
      links form a single cycle, not several. */
  lemma WalkReaches(segs: seq<Buffer>, ring: seq<nat>, from: nat, x: nat)
    requires ArenaValid(segs) && IsRing(segs, ring) && from < |segs| && x < |segs|
    ensures x in Walk(segs, from, |segs|)
  {
    var n := |ring|;
    RingCovers(segs, ring, from);
    RingCovers(segs, ring, x);
    var a, b := Pos(ring, from), Pos(ring, x);
    if a <= b {
      FollowRing(segs, ring, a, b - a);
      WalkFollow(segs, from, n, b - a);
    } else {
      FollowAdd(segs, from, n - 1 - a, 1 + b);
      FollowRing(segs, ring, a, n - 1 - a);
      FollowAdd(segs, ring[n - 1], 1, b);
      assert Follow(segs, ring[n - 1], 1) == ring[0];
      FollowRing(segs, ring, 0, b);
      WalkFollow(segs, from, n, n - a + b);
    }
  }
}
