/** `NodeBIO`: the byte queue that sits behind an OpenSSL BIO, so that the TLS engine can
    push and pull bytes synchronously while the socket delivers them in arbitrary chunks.
    The queue is a circular chain of fixed 16 KiB segments anchored at a permanent
    sentinel segment; it is kept here as an arena of segments addressed by index. */
module NodeCryptoBio {
  import opened BioChain
  import opened BioQueue

  class NodeBio {
    /** `length_`: the number of buffered bytes, kept up to date by every operation. */
    var length: nat
    /** The arena of segments; `buffers[Sentinel]` is `head_`. */
    var buffers: seq<Buffer>
    /** `read_head_`: the segment being drained. */
    var readHead: nat
    /** `write_head_`: the segment being filled. */
    var writeHead: nat

    /** The cycle of segments, listed from `read_head_` in the order of the `next_` links. */
    ghost var ring: seq<nat>
    /** How many segments, from `read_head_` to `write_head_` inclusive, hold the data. */
    ghost var live: nat
    /** Where the sentinel `head_` stands in `ring`. */
    ghost var anchor: nat

    /** The object invariant: the arena, the cycle and `live` have the queue's shape,
        `read_head_` and `write_head_` are the first and the last of the `live` segments,
        and `length_` is the number of bytes they hold. */
    ghost predicate Valid()
      reads this
    {
      && Queue(buffers, ring, live)
      && readHead == ring[0] && writeHead == ring[live - 1]
      && anchor < |ring| && ring[anchor] == Sentinel
      && length == |Held(buffers, ring, live)|
    }

    /** The buffered bytes, oldest first. */
    ghost function Contents(): seq<Byte>
      reads this
      requires Valid()
    {
      Held(buffers, ring, live)
    }

    /** `NodeBIO()`: an empty queue whose only segment is the sentinel, linked to itself. */
    constructor ()
      ensures Valid() && Contents() == [] && length == 0
      ensures |buffers| == 1 && buffers[Sentinel].next == Sentinel
      ensures readHead == Sentinel && writeHead == Sentinel
      ensures buffers[Sentinel].readPos == 0 && buffers[Sentinel].writePos == 0
    {
      length := 0;
      buffers := [NewBuffer(Sentinel)];
      readHead, writeHead := Sentinel, Sentinel;
      ring, live, anchor := [Sentinel], 1, 0;
      new;
      assert ring[..1] == [Sentinel];
      assert Span(buffers, [Sentinel]) == Unread(buffers[Sentinel]) + Span(buffers, []);
    }

    /** `Length()`: the number of buffered bytes, read off `length_` without a scan. */
    function Length(): (n: nat)
      reads this
      requires Valid()
      ensures n == |Contents()|
    {
      length
    }

    /** `length_` is the sum of `write_pos_ - read_pos_` over the segments met when following
        the `next_` links from `read_head_`, a walk that ends at `write_head_`. */
    lemma LengthIsPending()
      requires Valid()
      ensures Walk(buffers, readHead, live)[live - 1] == writeHead
      ensures length == Pending(buffers, Walk(buffers, readHead, live))
    {
      WalkRing(buffers, ring, 0, live);
      SpanLength(buffers, ring[..live]);
    }

    /** The chain is circular and anchored at the sentinel: as many hops as there are
        segments lead from the sentinel, or from `read_head_`, back to itself; `read_head_` is
        reached from the sentinel, and `write_head_` from `read_head_`; and from every
        segment the links lead back to the sentinel, so the chain is one cycle, not several. */
    lemma ChainIsCircular()
      requires Valid()
      ensures Follow(buffers, Sentinel, |buffers|) == Sentinel
      ensures Follow(buffers, readHead, |buffers|) == readHead
      ensures exists h :: 0 <= h < |buffers| && Follow(buffers, Sentinel, h) == readHead
      ensures Follow(buffers, readHead, live - 1) == writeHead
      ensures forall i :: 0 <= i < |buffers| ==> Sentinel in Walk(buffers, i, |buffers|)
    {
      var n := |ring|;
      var p := anchor;
      RingCloses(buffers, ring, p);
      RingCloses(buffers, ring, 0);
      FollowRing(buffers, ring, 0, live - 1);
      if p == 0 {
        assert Follow(buffers, Sentinel, 0) == readHead;
      } else {
        FollowAdd(buffers, Sentinel, n - 1 - p, 1);
        FollowRing(buffers, ring, p, n - 1 - p);
        assert Follow(buffers, Sentinel, n - p) == readHead;
      }
      forall i | 0 <= i < n
        ensures Sentinel in Walk(buffers, i, n)
      {
        WalkReaches(buffers, ring, i, Sentinel);
      }
    }

    /** `length_` is the sum of `write_pos_ - read_pos_` over every segment of the chain:
        walking as many segments as there are from the sentinel meets each of them, and the
        segments outside the run from `read_head_` to `write_head_` are idle. */
    lemma LengthIsTotal()
      requires Valid()
      ensures forall i :: 0 <= i < |buffers| ==> i in Walk(buffers, Sentinel, |buffers|)
      ensures length == Pending(buffers, Walk(buffers, Sentinel, |buffers|))
    {
      RingWalk(buffers, ring, anchor);
      RingRotate(buffers, ring, anchor);
      forall i | 0 <= i < |buffers|
        ensures i in Rotate(ring, anchor)
      {
        RingCovers(buffers, Rotate(ring, anchor), i);
      }
      PendingRotate(buffers, ring, anchor);
      HeldIsTotal(buffers, ring, live);
    }

    /** `Write(data, len)`: put the `len` bytes of `data` at the end of the queue, filling
        `write_head_` and moving on to a further segment whenever it is full. */
    method Write(data: array<Byte>, len: nat)
      requires Valid() && len <= data.Length
      modifies this
      ensures Valid()
      ensures Contents() == old(Contents()) + data[..len]
      ensures Length() == old(Length()) + len
      ensures readHead == old(readHead) && |buffers| >= old(|buffers|)
    {
      ghost var src := data[..len];
      var offset := 0;
      while offset < len
        invariant offset <= len
        invariant Valid()
        invariant Contents() == old(Contents()) + src[..offset]
        invariant readHead == old(readHead) && |buffers| >= old(|buffers|)
        decreases len - offset
      {
        ghost var before := Contents();
        var count := WriteMore(data, offset, len);
        assert data[offset..offset + count] == src[offset..offset + count];
        WriteAdvance(old(Contents()), before, src, offset, count);
        offset := offset + count;
      }
      assert src[..len] == src;
    }

    /** One step of Write: move on to a fresh segment if `write_head_` is full, then copy as
        many of the bytes `data[offset..len]` as fit into `write_head_`. */
    method WriteMore(data: array<Byte>, offset: nat, len: nat) returns (count: nat)
      requires Valid() && offset < len <= data.Length
      modifies this
      ensures Valid() && 0 < count <= len - offset && readHead == old(readHead)
      ensures Contents() == old(Contents()) + data[offset..offset + count]
      ensures |buffers| >= old(|buffers|)
    {
      if buffers[writeHead].writePos == BufferLength {
        AdvanceWriteHead();
      }
      count := len - offset;
      var avail := BufferLength - buffers[writeHead].writePos;
      if count > avail {
        count := avail;
      }
      CopyIntoWriteHead(data[offset..offset + count]);
    }

    /** Copy `chunk`, which fits, into `write_head_` after its `write_pos_`, and count it
        in `length_`. */
    method CopyIntoWriteHead(chunk: seq<Byte>)
      requires Valid() && buffers[writeHead].writePos + |chunk| <= BufferLength
      modifies this
      ensures Valid() && Contents() == old(Contents()) + chunk
      ensures readHead == old(readHead) && writeHead == old(writeHead) && |buffers| == old(|buffers|)
    {
      FillStep(buffers, ring, live, chunk);
      buffers := Fill(buffers, writeHead, chunk);
      length := length + |chunk|;
    }

    /** `write_head_` is full: move it on to the segment linked after it when that one is
        not `read_head_` (it is idle, and its cursors are set to 0 again for reuse), or else
        link a new segment after it. */
    method AdvanceWriteHead()
      requires Valid() && buffers[writeHead].writePos == BufferLength
      modifies this
      ensures Valid() && Contents() == old(Contents())
      ensures readHead == old(readHead) && buffers[writeHead].writePos == 0
      ensures |buffers| >= old(|buffers|)
    {
      if buffers[writeHead].next != readHead {
        ReuseNextSegment();
      } else {
        LinkNewSegment();
      }
    }

    /** The segment linked after the full `write_head_` is not `read_head_`: recycle it and
        make it `write_head_`. */
    method ReuseNextSegment()
      requires Valid() && buffers[writeHead].writePos == BufferLength && buffers[writeHead].next != readHead
      modifies this
      ensures Valid() && Contents() == old(Contents())
      ensures readHead == old(readHead) && buffers[writeHead].writePos == 0
      ensures writeHead == old(buffers[writeHead].next) && |buffers| == old(|buffers|)
      ensures forall i :: 0 <= i < |buffers| ==> buffers[i].next == old(buffers[i].next)
    {
      var next := buffers[writeHead].next;
      ReuseStep(buffers, ring, live);
      buffers := Recycle(buffers, next);
      writeHead := next;
      live := live + 1;
    }

    /** The full `write_head_` links back to `read_head_`: link a new segment after it and
        make that one `write_head_`. */
    method LinkNewSegment()
      requires Valid() && buffers[writeHead].writePos == BufferLength && buffers[writeHead].next == readHead
      modifies this
      ensures Valid() && Contents() == old(Contents())
      ensures readHead == old(readHead) && buffers[writeHead].writePos == 0
      ensures |buffers| == old(|buffers|) + 1 && writeHead == old(|buffers|)
      ensures buffers[old(writeHead)].next == writeHead && buffers[writeHead].next == old(readHead)
    {
      var m: nat := |buffers|;
      AllocStep(buffers, ring, live);
      buffers := LinkAfter(buffers, writeHead);
      ring := InsertAt(ring, live, m);
      writeHead := m;
      live := live + 1;
    }

    /** Partway through Read: the first `n` of the `held` bytes have been moved into `out`,
        whose other bytes are still those of `prior`, and the queue holds the rest. */
    ghost predicate ReadProgress(out: array<Byte>, held: seq<Byte>, prior: seq<Byte>, n: nat)
      reads this, out
    {
      && Valid() && n <= |held| && n <= |prior| == out.Length
      && Contents() == held[n..] && out[..] == held[..n] + prior[n..]
    }

    /** `Read(out, size)`: move at most `size` bytes, as many as are buffered, from the
        front of the queue into `out`, and return how many were moved. */
    method Read(out: array<Byte>, size: nat) returns (n: nat)
      requires Valid() && size <= out.Length
      modifies this, out
      ensures Valid()
      ensures n == if size < old(Length()) then size else old(Length())
      ensures out[..n] == old(Contents())[..n]
      ensures out[n..] == old(out[n..])
      ensures Contents() == old(Contents())[n..]
      ensures Length() == old(Length()) - n
      ensures |buffers| == old(|buffers|)
    {
      var expected := if length > size then size else length;
      ghost var held, prior := Contents(), out[..];
      n := 0;
      while n < expected
        invariant n <= expected <= size && expected <= |held|
        invariant ReadProgress(out, held, prior, n)
        invariant |buffers| == old(|buffers|)
        decreases expected - n
      {
        var count := ReadMore(out, n, expected - n, held, prior);
        n := n + count;
      }
      ReadDone(held, prior, out[..], n);
    }

    /** One step of Read: with the first `at` of the `held` bytes already in `out`, move the
        next ones, at most `max` and at most those of `read_head_`, into `out` after them. */
    method ReadMore(out: array<Byte>, at: nat, max: nat, ghost held: seq<Byte>, ghost prior: seq<Byte>)
      returns (count: nat)
      requires ReadProgress(out, held, prior, at) && 0 < max && at + max <= |held| && at + max <= out.Length
      modifies this, out
      ensures 0 < count <= max && ReadProgress(out, held, prior, at + count)
      ensures |buffers| == old(|buffers|)
    {
      ghost var before := out[..];
      count := CopyFront(out, at, max);
      DiscardFromReadHead(count);
      ReadAdvance(held, prior, before, at, count);
    }

    /** Copy the first bytes of `read_head_`, at most `max` of them, into `out` from index `at`
        on; the queue itself is left as it is. */
    method CopyFront(out: array<Byte>, at: nat, max: nat) returns (count: nat)
      requires Valid() && 0 < max <= length && at + max <= out.Length
      modifies out
      ensures 0 < count <= max && count <= buffers[readHead].writePos - buffers[readHead].readPos
      ensures out[..] == old(out[..at]) + Contents()[..count] + old(out[at + count..])
    {
      FrontHolds(buffers, ring, live);
      HeldFront(buffers, ring, live);
      var h := buffers[readHead];
      count := h.writePos - h.readPos;
      if count > max {
        count := max;
      }
      var chunk := Unread(h)[..count];
      CopyOut(out, at, chunk);
    }

    /** Drop `count` bytes from the front of `read_head_`; once it is drained its cursors go
        back to 0 and, unless it is also `write_head_`, `read_head_` moves on to the next segment. */
    method DiscardFromReadHead(count: nat)
      requires Valid() && 0 < count <= buffers[readHead].writePos - buffers[readHead].readPos
      modifies this
      ensures Valid()
      ensures Contents() == old(Contents())[count..]
      ensures length == old(length) - count
      ensures writeHead == old(writeHead) && |buffers| == old(|buffers|)
    {
      if count == buffers[readHead].writePos - buffers[readHead].readPos && readHead != writeHead {
        AdvanceReadHead(count);
      } else {
        ConsumeAtReadHead(count);
      }
    }

    /** `read_head_` is drained and is not `write_head_`: reset its cursors and move
        `read_head_` on to the next segment. */
    method AdvanceReadHead(count: nat)
      requires Valid() && count == buffers[readHead].writePos - buffers[readHead].readPos && readHead != writeHead
      modifies this
      ensures Valid()
      ensures Contents() == old(Contents())[count..]
      ensures length == old(length) - count
      ensures readHead == old(buffers[readHead].next) && writeHead == old(writeHead)
      ensures |buffers| == old(|buffers|)
    {
      AdvanceStep(buffers, ring, live, count);
      var next := buffers[readHead].next;
      buffers := Consume(buffers, readHead, count);
      readHead := next;
      anchor := if anchor == 0 then |ring| - 1 else anchor - 1;
      ring := Rotate(ring, 1);
      live := live - 1;
      length := length - count;
    }

    /** `read_head_` keeps bytes after this read, or it is also `write_head_`: only move its
        `read_pos_` on, resetting both cursors once it is drained. */
    method ConsumeAtReadHead(count: nat)
      requires Valid() && 0 < count <= buffers[readHead].writePos - buffers[readHead].readPos
      requires count < buffers[readHead].writePos - buffers[readHead].readPos || readHead == writeHead
      modifies this
      ensures Valid()
      ensures Contents() == old(Contents())[count..]
      ensures length == old(length) - count
      ensures readHead == old(readHead) && writeHead == old(writeHead) && |buffers| == old(|buffers|)
    {
      assert Pos(ring, ring[0]) == 0 && Pos(ring, ring[live - 1]) == live - 1;
      ConsumeStep(buffers, ring, live, count);
      buffers := Consume(buffers, readHead, count);
      length := length - count;
    }

    /** `Reset()`: discard every buffered byte. Walking from `read_head_` to `write_head_`,
        every segment that holds data gets both cursors back to 0, which leaves every
        segment of the chain idle; then both heads go back to the sentinel. The segments
        stay linked in the chain for reuse. */
    method Reset()
      requires Valid()
      modifies this
      ensures Valid() && Contents() == [] && Length() == 0
      ensures readHead == Sentinel && writeHead == Sentinel
      ensures forall i :: 0 <= i < |buffers| ==> Idle(buffers[i])
      ensures |buffers| == old(|buffers|)
      ensures forall i :: 0 <= i < |buffers| ==> buffers[i].next == old(buffers[i].next)
    {
      var segs := ClearedSegments();
      RingRelink(buffers, segs, ring);
      ResetStep(segs, ring, anchor);
      AllIdle(segs, ring);
      buffers, ring := segs, Rotate(ring, anchor);
      live, anchor := 1, 0;
      readHead, writeHead := Sentinel, Sentinel;
      length := 0;
    }

    /** The loop of Reset: the segments with both cursors of every segment from `read_head_`
        to `write_head_` put back to 0, which leaves every segment of the cycle idle; the
        links are left as they are. */
    method ClearedSegments() returns (segs: seq<Buffer>)
      requires Valid()
      ensures ArenaValid(segs) && |segs| == |buffers|
      ensures forall i :: 0 <= i < |segs| ==> segs[i].next == buffers[i].next
      ensures forall j {:trigger segs[ring[j]]} :: 0 <= j < |ring| ==> Idle(segs[ring[j]])
    {
      segs := buffers;
      var cur := readHead;
      ghost var k: nat := 0;
      while cur != writeHead
        invariant k < live && cur == ring[k]
        invariant ArenaValid(segs) && |segs| == |buffers|
        invariant forall i :: 0 <= i < |segs| ==> segs[i].next == buffers[i].next
        invariant forall j {:trigger segs[ring[j]]} :: 0 <= j < k ==> Idle(segs[ring[j]])
        invariant forall j {:trigger segs[ring[j]]} :: k <= j < |ring| ==> segs[ring[j]] == buffers[ring[j]]
        decreases live - k
      {
        forall j | k < j < |ring|
          ensures ring[j] != cur
        {
          assert Pos(ring, ring[j]) == j && Pos(ring, ring[k]) == k;
        }
        segs := Recycle(segs, cur);
        cur := segs[cur].next;
        k := k + 1;
      }
      assert Pos(ring, ring[k]) == k && Pos(ring, ring[live - 1]) == live - 1;
      forall j | k < j < |ring|
        ensures ring[j] != cur
      {
        assert Pos(ring, ring[j]) == j;
      }
      segs := Recycle(segs, cur);
    }

    /** `IndexOf(delim, limit)`: the offset, from the front of the queue, of the first
        `delim` among the first `limit` buffered bytes, or `limit` if there is none; the
        queue is left as it is. */
    method IndexOf(delim: Byte, limit: nat) returns (r: nat)
      requires Valid()
      ensures r == FirstIndexOf(Contents(), delim, limit)
    {
      ghost var held := Contents();
      var max := if length > limit then limit else length;
      var scanned := 0;
      var cur := readHead;
      ghost var k := 0;
      while scanned < max
        invariant scanned <= max <= limit && max <= |held|
        invariant k <= live && (scanned < max ==> k < live)
        invariant k < live ==> cur == ring[k]
        invariant scanned == max || scanned == |Span(buffers, ring[..k])|
        invariant forall j :: 0 <= j < scanned ==> held[j] != delim
        decreases max - scanned
      {
        HeldSegment(buffers, ring, live, k);
        var h := buffers[cur];
        var avail := h.writePos - h.readPos;
        if avail > max - scanned {
          avail := max - scanned;
        }
        var off := ScanSegmentAt(cur, k, scanned, avail, delim);
        if off < avail {
          r := scanned + off;
          FirstIndexOfIs(held, delim, limit, r);
          return;
        }
        scanned := scanned + avail;
        cur := h.next;
        k := k + 1;
        if k == live {
          assert ring[..k] == ring[..live];
        }
      }
      r := limit;
      FirstIndexOfIs(held, delim, limit, r);
    }

    /** The scan of IndexOf inside the `k`-th segment from `read_head_`, whose bytes start at
        offset `scanned` of the queue: the first `delim` among its first `avail` bytes. */
    method ScanSegmentAt(cur: nat, ghost k: nat, scanned: nat, avail: nat, delim: Byte) returns (off: nat)
      requires Valid() && k < live && cur == ring[k] && scanned == |Span(buffers, ring[..k])|
      requires avail <= buffers[cur].writePos - buffers[cur].readPos
      ensures off <= avail && scanned + avail <= |Contents()|
      ensures off < avail ==> Contents()[scanned + off] == delim
      ensures forall j :: scanned <= j < scanned + off ==> Contents()[j] != delim
    {
      ghost var held := Contents();
      SegmentBytes(buffers, ring, live, k);
      var h := buffers[cur];
      off := ScanSegment(h.data, h.readPos, avail, delim);
      forall j | scanned <= j < scanned + off
        ensures held[j] != delim
      {
        assert h.data[h.readPos + (j - scanned)] != delim;
      }
      if off < avail {
        assert held[scanned + off] == h.data[h.readPos + off];
      }
    }
  }

  /** Walk the `count` bytes of `data` from index `from` on until one is `delim`: the
      offset of the first such byte from `from`, or `count` when there is none. */
  method ScanSegment(data: seq<Byte>, from: nat, count: nat, delim: Byte) returns (off: nat)
    requires from + count <= |data|
    ensures off <= count
    ensures off < count ==> data[from + off] == delim
    ensures forall j :: from <= j < from + off ==> data[j] != delim
  {
    off := 0;
    while off < count && data[from + off] != delim
      invariant off <= count
      invariant forall j :: from <= j < from + off ==> data[j] != delim
    {
      off := off + 1;
    }
  }

  /** After `count` more bytes of `src` are appended, the queue holds what it held before
      Write followed by the first `offset + count` bytes of `src`. */
  lemma WriteAdvance(start: seq<Byte>, before: seq<Byte>, src: seq<Byte>, offset: nat, count: nat)
    requires offset + count <= |src| && before == start + src[..offset]
    ensures before + src[offset..offset + count] == start + src[..offset + count]
  {
    assert src[..offset + count] == src[..offset] + src[offset..offset + count];
  }

  /** After one more chunk of `count` bytes is copied out, `out` holds the first `n + count`
      buffered bytes followed by what it held before, and the queue the rest. */
  lemma ReadAdvance(held: seq<Byte>, prior: seq<Byte>, before: seq<Byte>, n: nat, count: nat)
    requires n + count <= |held| && n + count <= |prior| == |before|
    requires before == held[..n] + prior[n..]
    ensures before[..n] + held[n..][..count] + before[n + count..] == held[..n + count] + prior[n + count..]
    ensures held[n..][count..] == held[n + count..]
  {
    assert held[..n + count] == held[..n] + held[n..n + count];
    assert before[..n] == held[..n];
    assert before[n + count..] == prior[n + count..];
  }

  /** Once the loop of Read stops, `out` starts with the `n` bytes read and is unchanged past them. */
  lemma ReadDone(held: seq<Byte>, prior: seq<Byte>, now: seq<Byte>, n: nat)
    requires n <= |held| && n <= |prior| && now == held[..n] + prior[n..]
    ensures now[..n] == held[..n] && now[n..] == prior[n..]
  {
  }

  /** Copy `src` into `out` starting at index `at` (the `memcpy` out of a segment). */
  method CopyOut(out: array<Byte>, at: nat, src: seq<Byte>)
    requires at + |src| <= out.Length
    modifies out
    ensures out[..] == old(out[..at]) + src + old(out[at + |src|..])
  {
    forall k | 0 <= k < |src| {
      out[at + k] := src[k];
    }
  }

  /** The offset of the first `delim` among the first `limit` bytes of `s`, or `limit` when
      there is none: the result of `NodeBIO::IndexOf` on a queue holding `s`. */
  function FirstIndexOf(s: seq<Byte>, delim: Byte, limit: nat): (r: nat)
    ensures r <= limit
    ensures r < limit ==> r < |s| && s[r] == delim
    ensures forall j :: 0 <= j < r && j < |s| ==> s[j] != delim
    decreases limit
  {
    if s == [] || limit == 0 then limit
    else if s[0] == delim then 0
    else 1 + FirstIndexOf(s[1..], delim, limit - 1)
  }

  /** The three properties of FirstIndexOf single out its result. */
  lemma {:induction false} FirstIndexOfIs(s: seq<Byte>, delim: Byte, limit: nat, r: nat)
    requires r <= limit
    requires r < limit ==> r < |s| && s[r] == delim
    requires forall j :: 0 <= j < r && j < |s| ==> s[j] != delim
    ensures r == FirstIndexOf(s, delim, limit)
    decreases limit
  {
    if s != [] && limit != 0 && s[0] != delim {
      assert r > 0;
      forall j | 0 <= j < r - 1 && j < |s[1..]|
        ensures s[1..][j] != delim
      {
        assert s[1..][j] == s[j + 1];
      }
      FirstIndexOfIs(s[1..], delim, limit - 1, r - 1);
    }
  }

  /** On a queue holding "abc\ndef", `IndexOf('\n', 100)` is 3 and `IndexOf('x', 100)`, which
      finds nothing, is the limit 100. */
  lemma IndexOfExamples()
    ensures FirstIndexOf([97, 98, 99, 10, 100, 101, 102], 10, 100) == 3
    ensures FirstIndexOf([97, 98, 99, 10, 100, 101, 102], 120, 100) == 100
  {
    var s: seq<Byte> := [97, 98, 99, 10, 100, 101, 102];
    FirstIndexOfIs(s, 10, 100, 3);
    FirstIndexOfIs(s, 120, 100, 100);
  }

  /** Writing bytes and then reading back as many as the queue holds yields the bytes that
      were buffered before followed by the new ones, however many segments they span. */
  method WriteThenRead(bio: NodeBio, data: array<Byte>, out: array<Byte>) returns (n: nat)
    requires bio.Valid() && bio.Length() + data.Length <= out.Length && data != out
    modifies bio, out
    ensures n == old(bio.Length()) + data.Length
    ensures out[..n] == old(bio.Contents()) + data[..]
    ensures bio.Valid() && bio.Length() == 0
  {
    bio.Write(data, data.Length);
    n := bio.Read(out, bio.Length());
  }

  /** After Reset nothing is left to read. */
  method ResetThenRead(bio: NodeBio, out: array<Byte>, size: nat) returns (n: nat)
    requires bio.Valid() && size <= out.Length
    modifies bio, out
    ensures n == 0 && bio.Valid() && bio.Length() == 0
  {
    bio.Reset();
    n := bio.Read(out, size);
  }
}
