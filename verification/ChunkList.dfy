/** How a heap is laid out in memory: each chunk starts with its size, and each chunk of the
    sorted bin holds, sixteen bytes in, the address of the next one. The lemmas say what one
    write to such a field does to the whole layout. */
module ChunkList {
  import opened ByteMemory
  import opened HeapModel

  const MIN_CHUNK: nat := 24   // sizeof(struct chunk)

  ghost predicate Holds(m: seq<byte>, o: nat, p: nat, v: nat) {
    InMemory(m, o, p) && Word(m, p - o) == v
  }

  /** The address of the i-th block of a list, 0 past its end. */
  function AddrAt(bin: seq<Block>, i: nat): nat {
    if i < |bin| then bin[i].addr else 0
  }

  /** The link field of the i-th block names the one after it. */
  ghost predicate LinkAt(m: seq<byte>, o: nat, bin: seq<Block>, i: nat)
    requires i < |bin|
  {
    Holds(m, o, bin[i].addr + HEADER, AddrAt(bin, i + 1))
  }

  ghost predicate Linked(m: seq<byte>, o: nat, first: nat, bin: seq<Block>) {
    && first == AddrAt(bin, 0)
    && forall i {:trigger LinkAt(m, o, bin, i)} :: 0 <= i < |bin| ==> LinkAt(m, o, bin, i)
  }

  ghost predicate Sized(m: seq<byte>, o: nat, chunks: seq<Block>) {
    forall b :: b in chunks ==> Holds(m, o, b.addr, b.size)
  }

  /** The arena lies inside the memory, below 2^64. */
  ghost predicate Spans(m: seq<byte>, o: nat, h: Heap) {
    o <= h.base && h.base + h.length <= o + |m| && h.base + h.length < 0x1_0000_0000_0000_0000
  }

  /** Memory m, with the list starting at `first`, represents the heap h. */
  ghost predicate Laid(m: seq<byte>, o: nat, first: nat, h: Heap) {
    Wf(h) && Spans(m, o, h) && Linked(m, o, first, h.bin) && Sized(m, o, h.chunks)
  }

  // ---------------------------------------------------------------- what a change misses

  /** The two memories agree on the n bytes from pointer q. */
  ghost predicate Same(m: seq<byte>, m': seq<byte>, o: nat, q: nat, n: int) {
    && |m'| == |m|
    && forall i :: 0 <= i < |m| && q <= o + i < q + n ==> m'[i] == m[i]
  }

  /** The two memories agree everywhere but on the n bytes from pointer q. */
  ghost predicate SameBut(m: seq<byte>, m': seq<byte>, o: nat, q: nat, n: int) {
    && |m'| == |m|
    && forall i :: 0 <= i < |m| && !(q <= o + i < q + n) ==> m'[i] == m[i]
  }

  /** Nothing outside the arena changed, and no byte of a block handed out. */
  ghost predicate Keeps(m: seq<byte>, m': seq<byte>, o: nat, h: Heap) {
    && SameBut(m, m', o, h.base, h.length)
    && forall a :: a in h.live ==> Same(m, m', o, a + HEADER, h.live[a].size - HEADER)
  }

  lemma KeepsTrans(m: seq<byte>, m1: seq<byte>, m2: seq<byte>, o: nat, h: Heap, h1: Heap)
    requires Keeps(m, m1, o, h) && Keeps(m1, m2, o, h1)
    requires h1.base == h.base && h1.length == h.length
    requires forall a :: a in h.live ==> a in h1.live && h1.live[a].size == h.live[a].size
    ensures Keeps(m, m2, o, h)
  {
  }

  lemma PokeSame(m: seq<byte>, o: nat, p: nat, v: nat)
    ensures SameBut(m, Poke(m, o, p, v), o, p, WORD_SIZE)
  {
  }

  lemma PokeHolds(m: seq<byte>, o: nat, p: nat, v: nat)
    requires InMemory(m, o, p) && v < 0x1_0000_0000_0000_0000
    ensures Holds(Poke(m, o, p, v), o, p, v)
  {
  }

  lemma SameSize(m: seq<byte>, m': seq<byte>, o: nat, p: nat, n: nat)
    requires SameBut(m, m', o, p, n)
    ensures |m'| == |m|
  {
  }

  lemma HoldsAgain(m: seq<byte>, m': seq<byte>, o: nat, q: nat, w: nat)
    requires Holds(m, o, q, w) && Same(m, m', o, q, WORD_SIZE)
    ensures Holds(m', o, q, w)
  {
    LoadAgrees(m, m', q - o, WORD_SIZE);
  }

  lemma Misses(m: seq<byte>, m': seq<byte>, o: nat, p: nat, n: nat, q: nat, k: int)
    requires SameBut(m, m', o, p, n)
    requires q + k <= p || p + n <= q
    ensures Same(m, m', o, q, k)
  {
  }

  lemma HoldsElsewhere(m: seq<byte>, o: nat, p: nat, v: nat, q: nat, w: nat)
    requires Holds(m, o, q, w)
    requires q + WORD_SIZE <= p || p + WORD_SIZE <= q
    ensures Holds(Poke(m, o, p, v), o, q, w)
  {
    hide Poke, Holds, Same, SameBut;
    PokeSame(m, o, p, v);
    Misses(m, Poke(m, o, p, v), o, p, WORD_SIZE, q, WORD_SIZE);
    HoldsAgain(m, Poke(m, o, p, v), o, q, w);
  }

  // ---------------------------------------------------------------- list surgery

  ghost predicate Clear(a: nat, b: nat) {
    a + MIN_CHUNK <= b || b + MIN_CHUNK <= a
  }

  /** Link fields of distinct blocks do not overlap. */
  ghost predicate Apart(bin: seq<Block>) {
    forall i, j :: 0 <= i < j < |bin| ==> Clear(bin[i].addr, bin[j].addr)
  }

  /** prev->next = v, where prev is the i-th link of the list; the 0-th is in the arena itself. */
  ghost function SetLink(m: seq<byte>, o: nat, bin: seq<Block>, i: nat, v: nat): seq<byte> {
    if 0 < i <= |bin| then Poke(m, o, bin[i - 1].addr + HEADER, v) else m
  }

  /** What SetLink leaves in the link field of a listed block. */
  lemma SetLinkField(m: seq<byte>, o: nat, first: nat, bin: seq<Block>, i: nat, v: nat, k: nat)
    requires Linked(m, o, first, bin) && i <= |bin| && k < |bin| && Apart(bin)
    requires v < 0x1_0000_0000_0000_0000
    ensures Holds(SetLink(m, o, bin, i, v), o, bin[k].addr + HEADER, if k + 1 == i then v else AddrAt(bin, k + 1))
  {
    hide Holds, Poke, Apart, Clear;
    assert LinkAt(m, o, bin, k);
    if 0 < i {
      var p := bin[i - 1].addr + HEADER;
      if k + 1 == i {
        HoldsInside(m, o, p, AddrAt(bin, i));
        PokeHolds(m, o, p, v);
      } else {
        FieldsApart(bin, i - 1, k);
        HoldsElsewhere(m, o, p, v, bin[k].addr + HEADER, AddrAt(bin, k + 1));
      }
    }
  }

  lemma HoldsInside(m: seq<byte>, o: nat, p: nat, v: nat)
    requires Holds(m, o, p, v)
    ensures InMemory(m, o, p)
  {
    hide Word;
  }

  lemma FieldsApart(bin: seq<Block>, i: nat, k: nat)
    requires Apart(bin) && i < |bin| && k < |bin| && i != k
    ensures
      var p, q := bin[i].addr + HEADER, bin[k].addr + HEADER;
      q + WORD_SIZE <= p || p + WORD_SIZE <= q
  {
    assert Clear(bin[if i < k then i else k].addr, bin[if i < k then k else i].addr);
  }

  /** prev->next = c; c->next = now, at position i of the list. */
  ghost function LinkIn(m: seq<byte>, o: nat, bin: seq<Block>, i: nat, c: nat): seq<byte> {
    Poke(SetLink(m, o, bin, i, c), o, c + HEADER, AddrAt(bin, i))
  }

  lemma SetLinkSize(m: seq<byte>, o: nat, bin: seq<Block>, i: nat, v: nat)
    ensures |SetLink(m, o, bin, i, v)| == |m|
  {
  }

  /** The link of block k after c was put in at position i. */
  lemma LinkedInField(m: seq<byte>, o: nat, first: nat, bin: seq<Block>, i: nat, c: nat, k: nat)
    requires Linked(m, o, first, bin) && i <= |bin| && k < |bin| && Apart(bin) && Clear(bin[k].addr, c)
    requires InMemory(m, o, c + HEADER)
    requires c < 0x1_0000_0000_0000_0000 && AddrAt(bin, i) < 0x1_0000_0000_0000_0000
    ensures Holds(LinkIn(m, o, bin, i, c), o, bin[k].addr + HEADER, if k + 1 == i then c else AddrAt(bin, k + 1))
  {
    hide Apart, SetLink, Poke, Linked, Holds;
    SetLinkSize(m, o, bin, i, c);
    SetLinkField(m, o, first, bin, i, c, k);
    HoldsElsewhere(SetLink(m, o, bin, i, c), o, c + HEADER, AddrAt(bin, i), bin[k].addr + HEADER,
      if k + 1 == i then c else AddrAt(bin, k + 1));
  }

  lemma LinkedInNew(m: seq<byte>, o: nat, bin: seq<Block>, i: nat, c: nat)
    requires InMemory(m, o, c + HEADER) && AddrAt(bin, i) < 0x1_0000_0000_0000_0000
    ensures Holds(LinkIn(m, o, bin, i, c), o, c + HEADER, AddrAt(bin, i))
  {
    hide SetLink, Poke, Holds;
    SetLinkSize(m, o, bin, i, c);
    PokeHolds(SetLink(m, o, bin, i, c), o, c + HEADER, AddrAt(bin, i));
  }

  lemma InsertedAddr(bin: seq<Block>, i: nat, c: Block, j: nat)
    requires i <= |bin| && j <= |bin| + 1
    ensures AddrAt(Inserted(bin, i, c), j) == if j == i then c.addr else AddrAt(bin, if j < i then j else j - 1)
  {
    hide Inserted;
    InsertedAt(bin, i, c);
  }

  lemma LinkedIn(m: seq<byte>, o: nat, first: nat, bin: seq<Block>, i: nat, c: Block)
    requires Linked(m, o, first, bin) && i <= |bin| && Apart(bin)
    requires forall k :: 0 <= k < |bin| ==> Clear(bin[k].addr, c.addr)
    requires InMemory(m, o, c.addr + HEADER)
    requires c.addr < 0x1_0000_0000_0000_0000 && AddrAt(bin, i) < 0x1_0000_0000_0000_0000
    ensures Linked(LinkIn(m, o, bin, i, c.addr), o, if i == 0 then c.addr else first, Inserted(bin, i, c))
  {
    hide Inserted, Apart, LinkIn, AddrAt, InMemory, Clear, Holds;
    var bin', m' := Inserted(bin, i, c), LinkIn(m, o, bin, i, c.addr);
    InsertedAt(bin, i, c);
    InsertedAddr(bin, i, c, 0);
    forall j | 0 <= j < |bin'|
      ensures LinkAt(m', o, bin', j)
    {
      InsertedAddr(bin, i, c, j + 1);
      if j == i {
        LinkedInNew(m, o, bin, i, c.addr);
      } else {
        LinkedInField(m, o, first, bin, i, c.addr, if j < i then j else j - 1);
      }
    }
  }

  /** prev->next = now->next, for the block at position i. */
  lemma LinkedOut(m: seq<byte>, o: nat, first: nat, bin: seq<Block>, i: nat)
    requires Linked(m, o, first, bin) && i < |bin| && Apart(bin)
    requires AddrAt(bin, i + 1) < 0x1_0000_0000_0000_0000
    ensures Linked(SetLink(m, o, bin, i, AddrAt(bin, i + 1)), o,
              if i == 0 then AddrAt(bin, 1) else first, bin[..i] + bin[i + 1..])
  {
    hide Apart, SetLink, Poke, AddrAt, Holds;
    var bin', m' := bin[..i] + bin[i + 1..], SetLink(m, o, bin, i, AddrAt(bin, i + 1));
    RemovedAddr(bin, i, 0);
    forall j | 0 <= j < |bin'|
      ensures LinkAt(m', o, bin', j)
    {
      RemovedAddr(bin, i, j + 1);
      SetLinkField(m, o, first, bin, i, AddrAt(bin, i + 1), if j < i then j else j + 1);
      assert bin'[j] == bin[if j < i then j else j + 1];
    }
  }

  lemma RemovedAddr(bin: seq<Block>, i: nat, j: nat)
    requires i < |bin| && j <= |bin|
    ensures AddrAt(bin[..i] + bin[i + 1..], j) == AddrAt(bin, if j < i then j else j + 1)
  {
  }

  // ---------------------------------------------------------------- facts about the layout

  lemma ChunkInside(h: Heap, b: Block)
    requires Wf(h) && b in h.chunks
    ensures h.base <= b.addr && b.End() <= h.top && h.top <= h.base + h.length
    ensures 0x70 <= b.size && 0 < b.addr
  {
    ChunksApart(h);
  }

  lemma BinInside(h: Heap, i: nat)
    requires Wf(h)
    ensures AddrAt(h.bin, i) <= h.base + h.length
    ensures i < |h.bin| ==> h.bin[i] in h.bin && h.bin[i] in h.chunks && 0 < AddrAt(h.bin, i)
  {
    if i < |h.bin| {
      assert h.bin[i] in h.bin;
      ChunkInside(h, h.bin[i]);
    }
  }

  lemma TopInside(h: Heap)
    requires Wf(h)
    ensures h.base <= h.top <= h.base + h.length
  {
    TilesOrdered(h.chunks, h.base, h.top);
  }

  lemma BinApart(h: Heap)
    requires Wf(h)
    ensures Apart(h.bin)
  {
    ChunksApart(h);
    forall i, j | 0 <= i < j < |h.bin|
      ensures Clear(h.bin[i].addr, h.bin[j].addr)
    {
      assert h.bin[i] in h.chunks && h.bin[j] in h.chunks;
    }
  }

  lemma BinClearOf(h: Heap, c: Block)
    requires Wf(h) && c in h.chunks && c.addr in h.live
    ensures forall k :: 0 <= k < |h.bin| ==> Clear(h.bin[k].addr, c.addr)
  {
    ChunksApart(h);
    forall k | 0 <= k < |h.bin|
      ensures Clear(h.bin[k].addr, c.addr)
    {
      assert h.bin[k] in h.chunks;
    }
  }

  lemma OutsideSame(m: seq<byte>, m': seq<byte>, o: nat, h: Heap, p: nat, n: nat)
    requires SameBut(m, m', o, p, n)
    requires h.base <= p && p + n <= h.base + h.length
    ensures SameBut(m, m', o, h.base, h.length)
  {
  }

  /** A change that misses chunk b entirely leaves all its fields alone. */
  ghost predicate Untouched(m: seq<byte>, m': seq<byte>, o: nat, b: Block) {
    && Same(m, m', o, b.addr, WORD_SIZE)
    && Same(m, m', o, b.addr + HEADER, WORD_SIZE)
    && Same(m, m', o, b.addr + HEADER, b.size - HEADER)
  }

  lemma ChunkMissed(m: seq<byte>, m': seq<byte>, o: nat, p: nat, n: nat, b: Block)
    requires SameBut(m, m', o, p, n) && b.size >= 0x70
    requires b.End() <= p || p + n <= b.addr
    ensures Untouched(m, m', o, b)
  {
  }

  /** Only bookkeeping fields matter: a memory that agrees on them has the same layout. */
  lemma FieldsAgain(m: seq<byte>, m': seq<byte>, o: nat, first: nat, bin: seq<Block>, chunks: seq<Block>)
    requires Linked(m, o, first, bin) && Sized(m, o, chunks)
    requires forall b :: b in chunks ==> Same(m, m', o, b.addr, WORD_SIZE)
    requires forall b :: b in bin ==> Same(m, m', o, b.addr + HEADER, WORD_SIZE)
    ensures Linked(m', o, first, bin) && Sized(m', o, chunks)
  {
    hide Holds, Same;
    forall b | b in chunks
      ensures Holds(m', o, b.addr, b.size)
    {
      HoldsAgain(m, m', o, b.addr, b.size);
    }
    forall i | 0 <= i < |bin|
      ensures LinkAt(m', o, bin, i)
    {
      assert LinkAt(m, o, bin, i);
      assert bin[i] in bin;
      HoldsAgain(m, m', o, bin[i].addr + HEADER, AddrAt(bin, i + 1));
    }
  }

  lemma ChunksInside(h: Heap)
    requires Wf(h)
    ensures h.base <= h.top <= h.base + h.length
    ensures forall b :: b in h.chunks ==>
      h.base <= b.addr && b.End() <= h.top && 0x70 <= b.size
  {
    TilesOrdered(h.chunks, h.base, h.top);
  }

  lemma LiveAreChunks(h: Heap)
    requires Wf(h)
    ensures forall a :: a in h.live ==> Block(a, h.live[a].size) in h.chunks && Block(a, h.live[a].size) !in h.bin
    ensures forall b :: b in h.bin ==> b in h.chunks && b.addr !in h.live
  {
  }

  /** A change that misses every chunk leaves the layout alone, and all blocks handed out. */
  lemma NoChunkTouched(m: seq<byte>, m': seq<byte>, o: nat, first: nat, h: Heap)
    requires Laid(m, o, first, h) && |m'| == |m|
    requires forall b :: b in h.chunks ==> Untouched(m, m', o, b)
    ensures Linked(m', o, first, h.bin) && Sized(m', o, h.chunks)
    ensures forall a :: a in h.live ==> Same(m, m', o, a + HEADER, h.live[a].size - HEADER)
  {
    hide Wf, Same, Linked, Sized;
    LiveAreChunks(h);
    FieldsAgain(m, m', o, first, h.bin, h.chunks);
    forall a | a in h.live
      ensures Same(m, m', o, a + HEADER, h.live[a].size - HEADER)
    {
      assert Untouched(m, m', o, Block(a, h.live[a].size));
    }
  }

  /** Bytes above the top belong to nobody. */
  lemma AboveTop(m: seq<byte>, m': seq<byte>, o: nat, first: nat, h: Heap, p: nat, n: nat)
    requires Laid(m, o, first, h) && SameBut(m, m', o, p, n)
    requires h.top <= p && p + n <= h.base + h.length
    ensures Laid(m', o, first, h) && Keeps(m, m', o, h)
  {
    hide Wf, Linked, Sized, Same, SameBut, Untouched;
    SameSize(m, m', o, p, n);
    ChunksInside(h);
    OutsideSame(m, m', o, h, p, n);
    forall b | b in h.chunks
      ensures Untouched(m, m', o, b)
    {
      ChunkMissed(m, m', o, p, n, b);
    }
    NoChunkTouched(m, m', o, first, h);
  }

  /** A change inside chunk c is invisible to every other chunk. */
  lemma Neighbours(m: seq<byte>, m': seq<byte>, o: nat, h: Heap, c: Block, p: nat, n: nat)
    requires Wf(h) && c in h.chunks && c.addr <= p && p + n <= c.End()
    requires SameBut(m, m', o, p, n)
    ensures SameBut(m, m', o, h.base, h.length)
    ensures forall b :: b in h.chunks && b != c ==> Untouched(m, m', o, b)
  {
    hide Wf, Same, SameBut, Untouched;
    ChunksApart(h);
    ChunksInside(h);
    OutsideSame(m, m', o, h, p, n);
    forall b | b in h.chunks && b != c
      ensures Untouched(m, m', o, b)
    {
      ChunkMissed(m, m', o, p, n, b);
    }
  }

  // ---------------------------------------------------------------- the allocator's writes

  /** malloc_top writes the new chunk's size at the old top. */
  lemma LaidPush(m: seq<byte>, o: nat, first: nat, h: Heap, nb: nat, len: nat)
    requires Laid(m, o, first, h)
    requires nb <= h.topSize && ChunkSize(nb) && HEADER + len <= nb
    ensures InMemory(m, o, h.top) && nb < 0x8000_0000
    ensures Laid(Poke(m, o, h.top, nb), o, first, PushTop(h, nb, len))
    ensures Keeps(m, Poke(m, o, h.top, nb), o, h)
  {
    hide Wf, Same, SameBut, Linked, Sized, Poke;
    TopInside(h);
    PushTopWf(h, nb, len);
    var m' := Poke(m, o, h.top, nb);
    PokeSame(m, o, h.top, nb);
    PokeHolds(m, o, h.top, nb);
    assert nb < 0x8000_0000;
    AboveTop(m, m', o, first, h, h.top, WORD_SIZE);
    SizedMore(m', o, h.chunks, Block(h.top, nb));
  }

  lemma SizedMore(m: seq<byte>, o: nat, chunks: seq<Block>, c: Block)
    requires Sized(m, o, chunks) && Holds(m, o, c.addr, c.size)
    ensures Sized(m, o, chunks + [c])
  {
    assert forall b :: b in chunks + [c] ==> b in chunks || b == c;
  }

  /** kfree of the chunk below the top writes a zero size there. */
  lemma LaidPop(m: seq<byte>, o: nat, first: nat, h: Heap, c: Block)
    requires Laid(m, o, first, h) && c in h.chunks && c.addr in h.live && c.End() == h.top
    ensures Laid(Poke(m, o, c.addr, 0), o, first, PopTop(h, c))
    ensures Keeps(m, Poke(m, o, c.addr, 0), o, PopTop(h, c))
  {
    hide Wf, Linked, SameBut, Poke;
    PopTopWf(h, c);
    ChunkInside(h, c);
    var h' := PopTop(h, c);
    assert forall b :: b in h'.chunks ==> b in h.chunks;
    PokeSame(m, o, c.addr, 0);
    var m' := Poke(m, o, c.addr, 0);
    assert h'.top + WORD_SIZE <= h'.base + h'.length;
    AboveTop(m, m', o, first, h', c.addr, WORD_SIZE);
  }

  /** Writing the link field of chunk x leaves every size alone. */
  lemma SizedAfterLink(m: seq<byte>, o: nat, h: Heap, x: Block, v: nat)
    requires Wf(h) && Sized(m, o, h.chunks) && x in h.chunks
    ensures Sized(Poke(m, o, x.addr + HEADER, v), o, h.chunks)
  {
    hide Wf, Holds, Poke;
    ChunksApart(h);
    ChunksInside(h);
    var p := x.addr + HEADER;
    forall b | b in h.chunks
      ensures Holds(Poke(m, o, p, v), o, b.addr, b.size)
    {
      HoldsElsewhere(m, o, p, v, b.addr, b.size);
    }
  }

  /** Writing a link field of a chunk that is not handed out bothers nobody. */
  lemma KeepsAfterLink(m: seq<byte>, o: nat, h: Heap, x: Block, v: nat)
    requires Wf(h) && x in h.chunks && x.addr !in h.live
    ensures Keeps(m, Poke(m, o, x.addr + HEADER, v), o, h)
  {
    hide Wf, Same, SameBut, Poke;
    LiveAreChunks(h);
    ChunkInside(h, x);
    var m' := Poke(m, o, x.addr + HEADER, v);
    PokeSame(m, o, x.addr + HEADER, v);
    Neighbours(m, m', o, h, x, x.addr + HEADER, WORD_SIZE);
    assert forall a :: a in h.live ==> Untouched(m, m', o, Block(a, h.live[a].size));
  }

  lemma KeepsItself(m: seq<byte>, o: nat, h: Heap)
    ensures Keeps(m, m, o, h)
  {
  }

  lemma SetLinkLaid(m: seq<byte>, o: nat, h: Heap, bin: seq<Block>, i: nat, v: nat)
    requires Wf(h) && Sized(m, o, h.chunks)
    requires forall b :: b in bin ==> b in h.chunks && b.addr !in h.live
    ensures Sized(SetLink(m, o, bin, i, v), o, h.chunks)
    ensures Keeps(m, SetLink(m, o, bin, i, v), o, h)
  {
    hide Wf, Sized, Poke, Keeps;
    if 0 < i <= |bin| {
      assert bin[i - 1] in bin;
      SizedAfterLink(m, o, h, bin[i - 1], v);
      KeepsAfterLink(m, o, h, bin[i - 1], v);
    } else {
      KeepsItself(m, o, h);
    }
  }

  /** kfree of any other chunk threads it into the sorted bin. */
  lemma LaidInsert(m: seq<byte>, o: nat, first: nat, h: Heap, c: Block)
    requires Laid(m, o, first, h) && c in h.chunks && c.addr in h.live
    ensures
      var i := InsertPos(h.bin, c.size);
      var m' := LinkIn(m, o, h.bin, i, c.addr);
      && Laid(m', o, if i == 0 then c.addr else first, ToBin(h, c))
      && Keeps(m, m', o, ToBin(h, c))
  {
    hide Wf, Sized, InsertPos, Linked, SetLink, Poke, Keeps;
    var i := InsertPos(h.bin, c.size);
    var h' := ToBin(h, c);
    ToBinWf(h, c);
    BinApart(h);
    BinClearOf(h, c);
    BinInside(h, i);
    ChunkInside(h, c);
    LiveAreChunks(h);
    LinkedIn(m, o, first, h.bin, i, c);
    var m1 := SetLink(m, o, h.bin, i, c.addr);
    var m' := LinkIn(m, o, h.bin, i, c.addr);
    SetLinkLaid(m, o, h', h.bin, i, c.addr);
    SizedAfterLink(m1, o, h', c, AddrAt(h.bin, i));
    KeepsAfterLink(m1, o, h', c, AddrAt(h.bin, i));
    KeepsTrans(m, m1, m', o, h', h');
    SizeKept(m, m', o, h');
  }

  lemma SizeKept(m: seq<byte>, m': seq<byte>, o: nat, h: Heap)
    requires Keeps(m, m', o, h)
    ensures |m'| == |m|
  {
  }

  /** fetch_sorted_bin unlinks the block at position k and rebuilds its header. */
  lemma LaidTake(m: seq<byte>, m': seq<byte>, o: nat, first: nat, h: Heap, k: nat, len: nat)
    requires Laid(m, o, first, h) && k < |h.bin| && HEADER + len <= h.bin[k].size
    requires SameBut(SetLink(m, o, h.bin, k, AddrAt(h.bin, k + 1)), m', o, h.bin[k].addr, MIN_CHUNK)
    requires Holds(m', o, h.bin[k].addr, h.bin[k].size)
    ensures Laid(m', o, if k == 0 then AddrAt(h.bin, 1) else first, TakeFromBin(h, k, len))
    ensures Keeps(m, m', o, h)
  {
    hide Wf, SetLink, Same, SameBut, Linked, Holds;
    var c := h.bin[k];
    var m1 := SetLink(m, o, h.bin, k, AddrAt(h.bin, k + 1));
    var first' := if k == 0 then AddrAt(h.bin, 1) else first;
    var h1 := h.(bin := h.bin[..k] + h.bin[k + 1..]);
    BinApart(h);
    BinInside(h, k);
    BinInside(h, k + 1);
    ChunkInside(h, c);
    LiveAreChunks(h);
    TakeFromBinWf(h, k, len);
    RemovedFromBin(h.bin, k);
    LinkedOut(m, o, first, h.bin, k);
    SetLinkLaid(m, o, h, h.bin, k, AddrAt(h.bin, k + 1));
    SetLinkSize(m, o, h.bin, k, AddrAt(h.bin, k + 1));
    Neighbours(m1, m', o, h, c, c.addr, MIN_CHUNK);
    LaidTakeAux(m1, m', o, first', h, TakeFromBin(h, k, len), c);
    KeepsTrans(m, m1, m', o, h, h);
  }

  lemma LaidTakeAux(m1: seq<byte>, m': seq<byte>, o: nat, first: nat, h: Heap, h': Heap, c: Block)
    requires Wf(h') && Spans(m1, o, h) && Linked(m1, o, first, h'.bin) && Sized(m1, o, h.chunks)
    requires h'.chunks == h.chunks && h'.base == h.base && h'.length == h.length
    requires c !in h'.bin && (forall b :: b in h'.bin ==> b in h.chunks)
    requires c.addr !in h.live
    requires forall a :: a in h.live ==> Block(a, h.live[a].size) in h.chunks
    requires Holds(m', o, c.addr, c.size)
    requires SameBut(m1, m', o, h.base, h.length)
    requires forall b :: b in h.chunks && b != c ==> Untouched(m1, m', o, b)
    ensures Laid(m', o, first, h')
    ensures Keeps(m1, m', o, h)
  {
    hide Wf, Same, SameBut, Holds;
    SameSize(m1, m', o, h.base, h.length);
    forall b | b in h'.chunks
      ensures Holds(m', o, b.addr, b.size)
    {
      if b != c {
        HoldsAgain(m1, m', o, b.addr, b.size);
      }
    }
    forall i | 0 <= i < |h'.bin|
      ensures LinkAt(m', o, h'.bin, i)
    {
      assert LinkAt(m1, o, h'.bin, i);
      assert h'.bin[i] in h'.bin;
      HoldsAgain(m1, m', o, h'.bin[i].addr + HEADER, AddrAt(h'.bin, i + 1));
    }
    forall a | a in h.live
      ensures Same(m1, m', o, a + HEADER, h.live[a].size - HEADER)
    {
      assert Untouched(m1, m', o, Block(a, h.live[a].size));
    }
  }

  // ---------------------------------------------------------------- the clients' writes

  /** A change inside one block handed out leaves the layout alone, and every other block. */
  lemma LaidClient(m: seq<byte>, m': seq<byte>, o: nat, first: nat, h: Heap, a: nat, p: nat, n: nat)
    requires Laid(m, o, first, h) && a in h.live
    requires a + HEADER <= p && p + n <= a + h.live[a].size
    requires SameBut(m, m', o, p, n)
    ensures Laid(m', o, first, h)
    ensures Keeps(m, m', o, h.(live := h.live - {a}))
  {
    hide Wf, Same, SameBut, Linked, Sized;
    var c := Block(a, h.live[a].size);
    LiveAreChunks(h);
    Misses(m, m', o, p, n, c.addr, WORD_SIZE);
    assert |m'| == |m|;
    Neighbours(m, m', o, h, c, p, n);
    FieldsAgain(m, m', o, first, h.bin, h.chunks);
    forall x | x in h.live && x != a
      ensures Same(m, m', o, x + HEADER, h.live[x].size - HEADER)
    {
      assert Untouched(m, m', o, Block(x, h.live[x].size));
    }
  }

  /** So does a change outside the arena. */
  lemma LaidOutside(m: seq<byte>, m': seq<byte>, o: nat, first: nat, h: Heap, p: nat, n: nat)
    requires Laid(m, o, first, h)
    requires p + n <= h.base || h.base + h.length <= p
    requires SameBut(m, m', o, p, n)
    ensures Laid(m', o, first, h)
    ensures forall a :: a in h.live ==> Same(m, m', o, a + HEADER, h.live[a].size - HEADER)
  {
    hide Wf, Linked, Sized, Same, SameBut, Untouched;
    SameSize(m, m', o, p, n);
    ChunksInside(h);
    forall b | b in h.chunks
      ensures Untouched(m, m', o, b)
    {
      ChunkMissed(m, m', o, p, n, b);
    }
    NoChunkTouched(m, m', o, first, h);
  }
}
