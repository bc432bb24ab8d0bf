/** The kernel heap as a value: which chunks tile the arena, which of them sit in the sorted
    bin, which are handed out, and where the untouched top begins.

    `Kmalloc.Arena` keeps the same state in raw memory and is proved to follow the functions
    below step by step; the lemmas here say what every run of those steps keeps. */
module HeapModel {

  datatype Option<+T> = None | Some(value: T)

  /** A chunk: its header address and the number of bytes it spans, header included. */
  datatype Block = Block(addr: nat, size: nat) {
    function End(): nat { addr + size }
  }

  /** What is known of an allocated chunk: its size, and how many bytes were asked for. */
  datatype Region = Region(size: nat, len: nat)

  datatype Heap = Heap(
    base: nat, length: nat,
    chunks: seq<Block>,       // in address order
    bin: seq<Block>,          // in list order
    live: map<nat, Region>,   // keyed by header address
    top: nat, topSize: nat)

  const HEADER: nat := 16
  const UNIT: nat := 0x80
  const PAGE: nat := 0x1000
  const NO_ALIGN: nat := 0
  const LIMIT: nat := 0x1_0000_0000

  // ---------------------------------------------------------------- operations

  function RoundUp(n: nat): (r: nat)
    ensures n <= r < n + UNIT && r % UNIT == 0
  {
    if n % UNIT == 0 then n else n - n % UNIT + UNIT
  }

  /** Where insert_sorted stops: the first block that is not smaller. */
  function InsertPos(bin: seq<Block>, size: nat): (k: nat)
    ensures k <= |bin|
    ensures forall i :: 0 <= i < k ==> bin[i].size < size
    ensures k < |bin| ==> size <= bin[k].size
  {
    if bin == [] || size <= bin[0].size then 0 else 1 + InsertPos(bin[1..], size)
  }

  /** Putting c at position k of a list. */
  function Inserted(bin: seq<Block>, k: nat, c: Block): seq<Block>
    requires k <= |bin|
  {
    bin[..k] + [c] + bin[k..]
  }

  function InsertSorted(bin: seq<Block>, c: Block): seq<Block> {
    Inserted(bin, InsertPos(bin, c.size), c)
  }

  /** Where fetch_sorted_bin stops: the first block of exactly the size wanted. */
  function FitPos(bin: seq<Block>, nb: nat): (k: nat)
    ensures k <= |bin|
    ensures forall i :: 0 <= i < k ==> bin[i].size != nb
    ensures k < |bin| ==> bin[k].size == nb
  {
    if bin == [] || bin[0].size == nb then 0 else 1 + FitPos(bin[1..], nb)
  }

  function Init(base: nat, length: nat): Heap {
    Heap(base, length, [], [], map[], base, length)
  }

  /** malloc_top: carve a chunk of nb bytes off the top. */
  function PushTop(h: Heap, nb: nat, len: nat): Heap
    requires nb <= h.topSize
  {
    h.(chunks := h.chunks + [Block(h.top, nb)],
       live := h.live[h.top := Region(nb, len)],
       top := h.top + nb,
       topSize := h.topSize - nb)
  }

  function TakeFromBin(h: Heap, k: nat, len: nat): Heap
    requires k < |h.bin|
  {
    h.(bin := h.bin[..k] + h.bin[k + 1..],
       live := h.live[h.bin[k].addr := Region(h.bin[k].size, len)])
  }

  /** The chunk just below the top is given back to the top. */
  function PopTop(h: Heap, c: Block): Heap {
    h.(live := h.live - {c.addr},
       chunks := if h.chunks == [] then [] else h.chunks[..|h.chunks| - 1],
       top := c.addr,
       topSize := h.topSize + c.size)
  }

  /** Any other chunk goes to the sorted bin. */
  function ToBin(h: Heap, c: Block): Heap {
    h.(live := h.live - {c.addr}, bin := InsertSorted(h.bin, c))
  }

  /** A pointer that kmalloc returned and kfree has not taken back. */
  ghost predicate Freeable(h: Heap, m: nat) {
    m >= HEADER && m - HEADER in h.live
  }

  /** kfree of such a pointer; the null pointer is ignored. */
  function Kfree(h: Heap, m: nat): Heap
    requires m == 0 || Freeable(h, m)
  {
    if m == 0 then h else
      var c := Block(m - HEADER, h.live[m - HEADER].size);
      if c.End() == h.top then PopTop(h, c) else ToBin(h, c)
  }

  /** The bytes skipped so that the next pointer handed out is page-aligned. */
  function Consume(top: nat): (n: nat)
    ensures n < PAGE
    ensures (top + n + HEADER) % PAGE == 0
  {
    (PAGE - HEADER - top % PAGE) % PAGE
  }

  /** kmalloc for the two alignments it accepts; pointer 0 means failure. */
  function Kmalloc(h: Heap, len: nat, align: nat): (r: (Heap, nat))
    requires align == NO_ALIGN || align == PAGE
  {
    var nb := RoundUp(len + HEADER);
    if len >= LIMIT then (h, 0)
    else if align == NO_ALIGN then
      var k := FitPos(h.bin, nb);
      if k < |h.bin| then (TakeFromBin(h, k, len), h.bin[k].addr + HEADER)
      else if h.topSize < nb then (h, 0)
      else (PushTop(h, nb, len), h.top + HEADER)
    else
      var skip := Consume(h.top);
      if skip == 0 then
        if h.topSize < nb then (h, 0) else (PushTop(h, nb, len), h.top + HEADER)
      else if h.topSize < skip then (h, 0)
      else
        var cut := PushTop(h, skip, 0);
        var gap := h.top + HEADER;
        if cut.topSize < nb then (Kfree(cut, gap), 0)
        else (Kfree(PushTop(cut, nb, len), gap), cut.top + HEADER)
  }

  // ---------------------------------------------------------------- invariant

  /** The chunks cover [base, top) end to end. */
  ghost predicate Tiles(chunks: seq<Block>, base: nat, top: nat)
    decreases |chunks|
  {
    if chunks == [] then base == top
    else
      var last := chunks[|chunks| - 1];
      last.End() == top && Tiles(chunks[..|chunks| - 1], base, last.addr)
  }

  ghost predicate NoDup(s: seq<Block>) {
    forall i, j :: 0 <= i < j < |s| ==> s[i] != s[j]
  }

  ghost predicate Ascending(s: seq<Block>) {
    forall i, j :: 0 <= i < j < |s| ==> s[i].size <= s[j].size
  }

  /** Every chunk is in the bin or handed out, never both; nothing else is. */
  ghost predicate Partition(h: Heap) {
    && NoDup(h.bin)
    && (forall b :: b in h.bin ==> b in h.chunks)
    && (forall b :: b in h.chunks ==> (b in h.bin) != (b.addr in h.live))
    && (forall a :: a in h.live ==>
          && Block(a, h.live[a].size) in h.chunks
          && HEADER + h.live[a].len <= h.live[a].size)
  }

  ghost predicate ChunkSize(n: nat) {
    0x70 <= n && n % 16 == 0
  }

  ghost predicate Wf(h: Heap) {
    && 0 < h.base && h.base % PAGE == 0 && h.length < 0x8000_0000
    && h.top + h.topSize == h.base + h.length
    && Tiles(h.chunks, h.base, h.top)
    && (forall b :: b in h.chunks ==> ChunkSize(b.size))
    && Ascending(h.bin)
    && Partition(h)
  }

  // ---------------------------------------------------------------- tiling facts

  lemma {:induction false} TilesOrdered(chunks: seq<Block>, base: nat, top: nat)
    requires Tiles(chunks, base, top)
    ensures base <= top
    ensures forall i :: 0 <= i < |chunks| ==> base <= chunks[i].addr && chunks[i].End() <= top
    ensures forall i, j :: 0 <= i < j < |chunks| ==> chunks[i].End() <= chunks[j].addr
    decreases |chunks|
  {
    if chunks != [] {
      var n := |chunks| - 1;
      TilesOrdered(chunks[..n], base, chunks[n].addr);
      assert forall i :: 0 <= i < n ==> chunks[i] == chunks[..n][i];
    }
  }

  /** Distinct chunks do not overlap, and all lie below the top. */
  lemma ChunksApart(h: Heap)
    requires Wf(h)
    ensures forall b :: b in h.chunks ==> h.base <= b.addr && b.End() <= h.top
    ensures forall b, c :: b in h.chunks && c in h.chunks && b != c ==> b.End() <= c.addr || c.End() <= b.addr
  {
    TilesOrdered(h.chunks, h.base, h.top);
  }

  /** A header address names one chunk. */
  lemma UniqueAt(h: Heap, c: Block)
    requires Wf(h) && c in h.chunks
    ensures forall b :: b in h.chunks && b.addr == c.addr ==> b == c
  {
    TilesOrdered(h.chunks, h.base, h.top);
  }

  lemma LiveBelowTop(h: Heap)
    requires Wf(h)
    ensures forall a :: a in h.live ==> a < h.top
  {
    TilesOrdered(h.chunks, h.base, h.top);
  }

  lemma LastChunk(h: Heap, b: Block)
    requires Wf(h) && b in h.chunks
    requires b.End() == h.top
    ensures h.chunks != [] && b == h.chunks[|h.chunks| - 1]
  {
    TilesOrdered(h.chunks, h.base, h.top);
    ChunksApart(h);
  }

  // ---------------------------------------------------------------- preservation

  lemma PushTopWf(h: Heap, nb: nat, len: nat)
    requires Wf(h)
    requires nb <= h.topSize && ChunkSize(nb) && HEADER + len <= nb
    ensures Wf(PushTop(h, nb, len))
    ensures h.top !in h.live
    ensures Block(h.top, nb) !in h.chunks
  {
    ChunksApart(h);
    var h' := PushTop(h, nb, len);
    var c := Block(h.top, nb);
    assert h'.chunks[..|h'.chunks| - 1] == h.chunks;
    assert forall b :: b in h'.chunks <==> b in h.chunks || b == c;
    assert c !in h.chunks;
    assert h.top !in h.live;
    assert Partition(h') by {
      forall b | b in h'.chunks
        ensures (b in h'.bin) != (b.addr in h'.live)
      {
        if b == c {
          assert c !in h.bin;
        } else {
          assert b.addr < h.top;
        }
      }
    }
  }

  lemma RemovedFromBin(bin: seq<Block>, k: nat)
    requires NoDup(bin) && k < |bin|
    ensures NoDup(bin[..k] + bin[k + 1..])
    ensures forall b :: b in bin[..k] + bin[k + 1..] <==> b in bin && b != bin[k]
  {
    var r := bin[..k] + bin[k + 1..];
    assert forall i :: 0 <= i < |r| ==> r[i] == bin[if i < k then i else i + 1];
    forall b
      ensures b in r <==> b in bin && b != bin[k]
    {
      if b in bin && b != bin[k] {
        var i :| 0 <= i < |bin| && bin[i] == b;
        assert r[if i < k then i else i - 1] == b;
      }
    }
  }

  lemma RemovedAscending(bin: seq<Block>, k: nat)
    requires Ascending(bin) && k < |bin|
    ensures Ascending(bin[..k] + bin[k + 1..])
  {
    var r := bin[..k] + bin[k + 1..];
    assert forall i :: 0 <= i < |r| ==> r[i] == bin[if i < k then i else i + 1];
  }

  lemma TakeFromBinWf(h: Heap, k: nat, len: nat)
    requires Wf(h)
    requires k < |h.bin| && HEADER + len <= h.bin[k].size
    ensures Wf(TakeFromBin(h, k, len))
    ensures h.bin[k].addr !in h.live
  {
    hide NoDup, Ascending, Tiles, ChunkSize;
    assert h.bin[k] in h.bin;
    RemovedFromBin(h.bin, k);
    RemovedAscending(h.bin, k);
    MovedFromBin(h, h.bin[k], h.bin[..k] + h.bin[k + 1..], len);
  }

  lemma MovedFromBin(h: Heap, c: Block, bin: seq<Block>, len: nat)
    requires Wf(h) && c in h.bin && HEADER + len <= c.size
    requires Ascending(bin) && NoDup(bin)
    requires forall b :: b in bin <==> b in h.bin && b != c
    ensures Wf(h.(bin := bin, live := h.live[c.addr := Region(c.size, len)])) && c.addr !in h.live
  {
    hide NoDup, Ascending, Tiles, ChunkSize;
    var h' := h.(bin := bin, live := h.live[c.addr := Region(c.size, len)]);
    UniqueAt(h, c);
    forall b | b in h'.chunks
      ensures (b in h'.bin) != (b.addr in h'.live)
    {
    }
    assert Partition(h');
  }

  lemma InsertedAt(bin: seq<Block>, k: nat, c: Block)
    requires k <= |bin|
    ensures |Inserted(bin, k, c)| == |bin| + 1
    ensures forall i :: 0 <= i < k ==> Inserted(bin, k, c)[i] == bin[i]
    ensures Inserted(bin, k, c)[k] == c
    ensures forall i :: k < i <= |bin| ==> Inserted(bin, k, c)[i] == bin[i - 1]
  {
  }

  lemma InsertedMembers(bin: seq<Block>, k: nat, c: Block)
    requires k <= |bin|
    ensures forall b :: b in Inserted(bin, k, c) <==> b in bin || b == c
  {
    assert bin == bin[..k] + bin[k..];
  }

  lemma InsertedNoDup(bin: seq<Block>, k: nat, c: Block)
    requires k <= |bin| && NoDup(bin) && c !in bin
    ensures NoDup(Inserted(bin, k, c))
  {
    InsertedAt(bin, k, c);
  }

  lemma InsertSortedAscending(bin: seq<Block>, c: Block)
    requires Ascending(bin)
    ensures Ascending(InsertSorted(bin, c))
  {
    InsertedAt(bin, InsertPos(bin, c.size), c);
  }

  lemma KfreeWf(h: Heap, a: nat)
    requires Wf(h) && a in h.live
    ensures Wf(Kfree(h, a + HEADER))
  {
    var c := Block(a, h.live[a].size);
    assert c in h.chunks;
    if c.End() == h.top {
      PopTopWf(h, c);
    } else {
      ToBinWf(h, c);
    }
  }

  lemma PopTopWf(h: Heap, c: Block)
    requires Wf(h) && c in h.chunks && c.addr in h.live && c.End() == h.top
    ensures Wf(PopTop(h, c))
  {
    var h' := PopTop(h, c);
    LastChunk(h, c);
    DroppedLast(h);
    assert Partition(h') by {
      forall b | b in h'.chunks
        ensures (b in h'.bin) != (b.addr in h'.live)
      {
      }
    }
  }

  lemma DroppedLast(h: Heap)
    requires Wf(h) && h.chunks != []
    ensures
      var n := |h.chunks| - 1;
      forall b :: b in h.chunks[..n] <==> b in h.chunks && b != h.chunks[n]
    ensures
      var n := |h.chunks| - 1;
      forall b :: b in h.chunks[..n] ==> b.addr != h.chunks[n].addr
  {
    TilesOrdered(h.chunks, h.base, h.top);
    var n := |h.chunks| - 1;
    assert h.chunks == h.chunks[..n] + [h.chunks[n]];
  }

  lemma ToBinWf(h: Heap, c: Block)
    requires Wf(h) && c in h.chunks && c.addr in h.live
    ensures Wf(ToBin(h, c))
  {
    var k := InsertPos(h.bin, c.size);
    InsertSortedAscending(h.bin, c);
    InsertedMembers(h.bin, k, c);
    InsertedNoDup(h.bin, k, c);
    MovedToBin(h, c, InsertSorted(h.bin, c));
  }

  lemma MovedToBin(h: Heap, c: Block, bin: seq<Block>)
    requires Wf(h) && c in h.chunks && c.addr in h.live
    requires Ascending(bin) && NoDup(bin)
    requires forall b :: b in bin <==> b in h.bin || b == c
    ensures Wf(h.(live := h.live - {c.addr}, bin := bin))
  {
    var h' := h.(live := h.live - {c.addr}, bin := bin);
    UniqueAt(h, c);
    forall b | b in h'.chunks
      ensures (b in h'.bin) != (b.addr in h'.live)
    {
    }
    assert Partition(h');
  }
}
