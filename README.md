# NodeBIO byte queue

This project models `node::NodeBIO` from `src/node_crypto_bio.h`. `NodeBIO` is the byte queue behind the OpenSSL
BIO that Node's TLS layer uses. The TLS engine pushes bytes into it and pulls bytes out of it synchronously,
while the socket delivers data in chunks of any size. The queue is a circular, singly linked chain of
fixed-size segments (`NodeBIO::Buffer`, `kBufferLength` = 16 KiB each) anchored at a permanent sentinel
segment `head_`:

- `write_head_` is the segment being filled;
- `read_head_` is the segment being drained;
- `length_` counts the buffered bytes, so `Length()` needs no scan.

The model has three modules:

- `BioChain` (`chain.dfy`) holds the values:
  - the segment record `Buffer`, with its cursors `read_pos_` and `write_pos_`, its `next_` link and its
    16 KiB `data_`;
  - an arena `seq<Buffer>` that holds every segment at an index, with the sentinel at index 0 and `next_`
    stored as an arena index;
  - the pure updates one operation makes to the arena: copying into a segment, consuming from a segment,
    recycling a drained segment, and linking a new segment after another;
  - lemmas about the `next_` cycle: rotation, insertion, and following links.
- `BioQueue` (`queue.dfy`) holds the shape the queue keeps between operations (`Queue`), the bytes it holds
  (`Held`), and one lemma per step of Write, Read and Reset. Part of the shape is that every segment outside
  the run from `read_head_` to `write_head_` is idle: both its cursors are 0. So the sum of
  `write_pos_ - read_pos_` over every segment of the chain is the number of buffered bytes. Each step lemma says that the step keeps the
  shape and how it changes the held bytes.
- `NodeCryptoBio` (`node_bio.dfy`) holds the class `NodeBio`:
  - the source's fields `length_`, `read_head_` and `write_head_`, plus the arena;
  - three ghost fields: `ring` (the cycle listed from `read_head_`), `live` (how many segments, from
    `read_head_` to `write_head_`, hold the data) and `anchor` (where the sentinel stands in the cycle);
  - the object invariant `Valid()` and the abstract contents `Contents()`;
  - the imperative operations, each proved against `Contents()`: the constructor, `Write`, `Read`,
    `IndexOf`, `Reset` and `Length`.

The header declares the operations and promises each one in a single comment line: `Read` moves at most
`size` bytes into `out` and returns how many; `IndexOf` finds the first `delim` or returns `limit`; `Reset`
discards all data; `Write` puts `len` bytes into the buffer. Their bodies live in `node_crypto_bio.cc`, which
is not part of this model. The contracts here state those promises on the abstract contents
`Contents()`. How each operation moves the cursors and the heads step by step is this model's own choice,
consistent with the fields the header declares but not taken from it:

- `Write` copies into `write_head_` until it is full. At the next copy it moves on to the segment linked after
  it when that segment is not `read_head_`. Such a segment lies outside the run from `read_head_` to
  `write_head_`, so it is idle: both its cursors are already 0, and they are set to 0 again as it is reused. Otherwise `Write` links a freshly allocated segment after `write_head_`.
- `Read` copies out of `read_head_`. A segment drained by a read has its cursors put back to 0. Unless it is
  also `write_head_`, `read_head_` then moves on to the next segment, even when the read stops exactly at the
  end of that segment.
- `IndexOf` scans from `read_head_` without moving any cursor.
- `Reset` walks from `read_head_` to `write_head_` and puts both cursors of every segment on the way back
  to 0. That leaves every segment of the chain idle. Then it puts both heads on the sentinel and keeps every
  segment in the chain, with its link, for reuse.

None of these choices can be seen through `Contents()` or `Length()`; "## Left out" lists them.

## Model

| member | source | states |
|---|---|---|
| BioChain.NewBuffer | src/node_crypto_bio.h:44-53 | `Buffer()` makes a segment with both cursors at 0, inside the cursor bounds, holding no unread bytes, with a `data_` of `kBufferLength` bytes |
| BioChain.Splice | src/node_crypto_bio.h:52 | copying a chunk into `data_` at an offset replaces exactly those bytes and keeps the rest of the segment |
| BioChain.Fill | src/node_crypto_bio.h:72-73 | copying a chunk that fits into a segment after `write_pos_` appends it to that segment's unread bytes, moves only that segment's `write_pos_`, and leaves every link and every other segment unchanged |
| BioChain.Consume | src/node_crypto_bio.h:62-63 | reading `count` bytes from a segment drops them from the front of its unread bytes; a segment drained this way gets both cursors back at 0; links and other segments are unchanged |
| BioChain.Recycle | src/node_crypto_bio.h:69-70 | recycling a segment puts both cursors at 0 so that it holds nothing, and keeps every link and every other segment |
| BioChain.LinkAfter | src/node_crypto_bio.h:72-73 | a new empty segment is appended to the arena and linked between a segment and that segment's former successor; the unread bytes of every old segment are kept |
| BioChain.SpanLength | src/node_crypto_bio.h:85 | the unread bytes of a run of segments number exactly the sum of their `write_pos_ - read_pos_` |
| BioChain.RingCovers | src/node_crypto_bio.h:55-58 | the cycle of `next_` links passes through every segment of the arena |
| BioChain.WalkReaches | src/node_crypto_bio.h:55-58 | walking as many segments as there are from any segment meets every segment, so the links form one cycle and not several |
| BioChain.RingCloses | src/node_crypto_bio.h:55-58 | following the `next_` links as many times as there are segments leads from any segment of the cycle back to itself |
| BioQueue.FillStep | src/node_crypto_bio.h:72-73 | copying a chunk that fits into `write_head_` keeps the queue's shape and appends the chunk to the held bytes |
| BioQueue.ReuseStep | src/node_crypto_bio.h:72-73 | when `write_head_` is full and the segment after it is not `read_head_`, that segment is idle (both cursors 0), and recycling it as the new `write_head_` keeps the shape and the held bytes |
| BioQueue.AllocStep | src/node_crypto_bio.h:72-73 | when `write_head_` is full and links back to `read_head_`, a new segment linked after it becomes `write_head_`; the shape is kept, the cycle grows by that one segment, and the held bytes are unchanged |
| BioQueue.ConsumeStep | src/node_crypto_bio.h:62-63 | reading from `read_head_` without leaving it keeps the shape and drops the bytes read from the front of the held bytes |
| BioQueue.AdvanceStep | src/node_crypto_bio.h:62-63 | draining `read_head_` while a later segment holds data moves `read_head_` to its successor, keeps the shape, and drops the drained bytes from the front of the held bytes |
| BioQueue.ResetStep | src/node_crypto_bio.h:69-70 | once every segment of the cycle is idle, listing the cycle from the sentinel gives an empty queue whose two heads are the sentinel |
| BioQueue.HeldIsTotal | src/node_crypto_bio.h:85 | the number of held bytes is the sum of `write_pos_ - read_pos_` over every segment of the cycle |
| BioQueue.FrontHolds | src/node_crypto_bio.h:62-63 | while the queue holds bytes, `read_head_` holds some of them |
| NodeCryptoBio.NodeBio.constructor | src/node_crypto_bio.h:55-58 | a new queue holds nothing and has `length_` 0; its only segment is the sentinel, linked to itself, with both heads on it and both cursors at 0 |
| NodeCryptoBio.NodeBio.Length | src/node_crypto_bio.h:75-78 | `Length()` is the number of buffered bytes |
| NodeCryptoBio.NodeBio.LengthIsPending | src/node_crypto_bio.h:85-88 | `length_` equals the sum of `write_pos_ - read_pos_` over the segments met when following `next_` from `read_head_`, a walk that ends at `write_head_` |
| NodeCryptoBio.NodeBio.LengthIsTotal | src/node_crypto_bio.h:85-88 | walking as many segments as there are from the sentinel `head_` meets every segment, and `length_` equals the sum of `write_pos_ - read_pos_` over that walk, that is, over every segment |
| NodeCryptoBio.NodeBio.ChainIsCircular | src/node_crypto_bio.h:55-58 | the chain is circular and anchored at the sentinel: as many hops as there are segments lead from the sentinel, and from `read_head_`, back to itself; `read_head_` is reachable from the sentinel; `write_head_` is reachable from `read_head_`; from every segment, a walk as long as the arena meets the sentinel, so the chain is one cycle |
| NodeCryptoBio.NodeBio.Write | src/node_crypto_bio.h:72-73 | `Write(data, len)` appends the `len` bytes to the buffered bytes, raises `Length()` by `len`, leaves `read_head_` in place, never drops a segment from the arena, and keeps the invariant |
| NodeCryptoBio.NodeBio.WriteMore | src/node_crypto_bio.h:72-73 | one round of Write: appends the next bytes of `data` from `offset` on, at least one and at most those left of `len`, and leaves `read_head_` in place |
| NodeCryptoBio.NodeBio.CopyIntoWriteHead | src/node_crypto_bio.h:72-73 | copying a chunk that fits into `write_head_` appends it to the buffered bytes |
| NodeCryptoBio.NodeBio.AdvanceWriteHead | src/node_crypto_bio.h:72-73 | moving on from a full `write_head_` gives an empty `write_head_` and changes no buffered byte |
| NodeCryptoBio.NodeBio.ReuseNextSegment | src/node_crypto_bio.h:72-73 | the free segment linked after a full `write_head_` is recycled and becomes `write_head_`; the arena and every link are kept; the buffered bytes are unchanged |
| NodeCryptoBio.NodeBio.LinkNewSegment | src/node_crypto_bio.h:72-73 | a new segment is added to the arena, linked between the full `write_head_` and `read_head_`, and becomes `write_head_`; the buffered bytes are unchanged |
| NodeCryptoBio.NodeBio.Read | src/node_crypto_bio.h:62-63 | `Read(out, size)` returns n = min(size, Length()); `out[..n]` holds the n oldest buffered bytes in order; the rest of `out` is unchanged; the queue keeps the bytes after them; `Length()` falls by n; the arena keeps every segment |
| NodeCryptoBio.NodeBio.ReadMore | src/node_crypto_bio.h:62-63 | one round of Read: moves at least one of the next bytes, at most the bytes still wanted, from the front of the queue into `out` after those already read |
| NodeCryptoBio.NodeBio.CopyFront | src/node_crypto_bio.h:62-63 | copies the oldest bytes, all taken from `read_head_`, into `out` at a given index, changing nothing else |
| NodeCryptoBio.NodeBio.DiscardFromReadHead | src/node_crypto_bio.h:62-63 | dropping bytes of `read_head_` removes exactly them from the front of the buffered bytes, lowers `length_` by their number, and keeps `write_head_` and the arena size |
| NodeCryptoBio.NodeBio.AdvanceReadHead | src/node_crypto_bio.h:62-63 | draining `read_head_` while it is not `write_head_` moves `read_head_` to the segment linked after it, keeps `write_head_` and the arena size, and drops the drained bytes |
| NodeCryptoBio.NodeBio.ConsumeAtReadHead | src/node_crypto_bio.h:62-63 | reading part of `read_head_`, or draining it while it is also `write_head_`, drops those bytes and leaves both heads and the arena size in place |
| NodeCryptoBio.NodeBio.Reset | src/node_crypto_bio.h:69-70 | `Reset()` discards every buffered byte: `Length()` is 0, both heads are the sentinel, every segment of the arena has both cursors at 0, and every segment stays in the arena with its link unchanged |
| NodeCryptoBio.NodeBio.ClearedSegments | src/node_crypto_bio.h:69-70 | the walk of Reset from `read_head_` to `write_head_` leaves every segment of the cycle with both cursors at 0 and keeps every link and the arena size |
| NodeCryptoBio.NodeBio.IndexOf | src/node_crypto_bio.h:65-67 | `IndexOf(delim, limit)` is the offset of the first `delim` among the first `limit` buffered bytes, or `limit` when there is none; it changes nothing |
| NodeCryptoBio.NodeBio.ScanSegmentAt | src/node_crypto_bio.h:65-67 | inside one segment of the queue, the scan stops at the first `delim` of that stretch of the buffered bytes and none before it is `delim` |
| NodeCryptoBio.ScanSegment | src/node_crypto_bio.h:65-67 | the scan over one segment's `data_` finds the first `delim` among `count` bytes, or `count` when there is none |
| NodeCryptoBio.FirstIndexOf | src/node_crypto_bio.h:65-67 | the specification of IndexOf: the result is at most `limit`; below `limit` it is the index of a `delim` in the bytes; no earlier byte is `delim` |
| NodeCryptoBio.FirstIndexOfIs | src/node_crypto_bio.h:65-67 | those three properties single out the result, so any scan that establishes them returns exactly FirstIndexOf |
| NodeCryptoBio.IndexOfExamples | src/node_crypto_bio.h:65-67 | on "abc\ndef", the offset of `'\n'` with limit 100 is 3, and the offset of `'x'`, which is absent, is the limit 100 |
| NodeCryptoBio.CopyOut | src/node_crypto_bio.h:62-63 | copying bytes out of a segment into `out` from index `at` puts exactly those bytes there and keeps every other byte of `out` |
| NodeCryptoBio.WriteThenRead | src/node_crypto_bio.h:62-73 | writing `data` and then reading all that is buffered returns the bytes held before followed by `data`, across any number of segments, and leaves the queue empty |
| NodeCryptoBio.ResetThenRead | src/node_crypto_bio.h:62-70 | after `Reset()`, `Length()` is 0 and the next `Read` returns 0 |

## Left out

- The BIO callback layer (`GetMethod`, the static `New`, `Free`, `Read`, `Write`, `Puts`, `Gets`, `Ctrl`, `FromBIO`, and `method_`, lines 29-39, 80-83 and 90) is left out. It adapts OpenSSL's callback table to the queue and works through OpenSSL's `BIO` structure, which is not part of this model. This includes the `assert` on `bio->ptr` at line 81.
- The destructor `~NodeBIO()` (line 60) is left out. It frees the segments, and the arena model has no deallocation.
- Allocation failure is left out: the header says nothing about it, and this model assumes that allocating a new segment always succeeds.
- Sizes are unbounded `nat`s, not `size_t`, so a wrap-around of `length_` or of `len` is not modelled. A queue holding 2^64 bytes cannot exist in memory.
- Pointers are arena indices. `head_`, which is embedded in the object, is index 0 of the arena, and `next_ == NULL` in a fresh `Buffer()` never survives linking, so it is not represented.
- A segment's `data_` is a value sequence that each copy replaces. The in-place `memcpy` into and out of the 16 KiB array, and any aliasing between the caller's buffers and the segments, are not captured. `Write`'s `data` and `Read`'s `out` are `array`s.
- The header does not say what `Read` does when `out` is null, so the model always copies into `out`.
- `char` is an unsigned byte (0 to 255); the signedness of `char` plays no part in any operation here.
- The bodies of `Read`, `Write`, `IndexOf` and `Reset` are not in the header. Their contracts state the header's one-line promises on the abstract contents, so any body with that effect meets them. How the cursors and heads move step by step is the model's own choice, listed in the next lines; none of it can be seen through `Contents()` or `Length()`.
- Write: the segment after a full `write_head_` is reused only when it is not `read_head_`, and its cursors go back to 0 first; otherwise a new segment is linked after `write_head_`. The move happens at the next copy, not right after a copy fills the segment. This is the model's choice.
- Read: a segment drained by a read gets both cursors back at 0, and `read_head_` moves on to the next segment unless it is also `write_head_`. This happens even when the read stops exactly at the segment's end. This is the model's choice.
- Reset: the cursors of every segment from `read_head_` to `write_head_` go back to 0. Then both heads go back to the sentinel `head_`, instead of staying on the segment where the walk stopped, and every segment stays linked for reuse. This is the model's choice; the header only says that all data is discarded.
