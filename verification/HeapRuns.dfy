/** What every run of kmalloc and kfree keeps: the tiling, the one odd-sized gap, and the
    byte count. */
module HeapRuns {
  import opened HeapModel

  // ---------------------------------------------------------------- the page-alignment gap

  ghost predicate Odd(b: Block) {
    b.size % UNIT != 0
  }

  /** The first chunk whose size is not a multiple of 0x80, if there is one. */
  ghost function Gap(chunks: seq<Block>): Option<Block>
    decreases |chunks|
  {
    if chunks == [] then None
    else
      var n := |chunks| - 1;
      var g := Gap(chunks[..n]);
      if g.None? && Odd(chunks[n]) then Some(chunks[n]) else g
  }

  lemma {:induction false} GapMember(chunks: seq<Block>)
    ensures Gap(chunks).Some? ==> Gap(chunks).value in chunks && Odd(Gap(chunks).value)
    ensures Gap(chunks).None? ==> forall b :: b in chunks ==> !Odd(b)
    decreases |chunks|
  {
    if chunks != [] {
      var n := |chunks| - 1;
      GapMember(chunks[..n]);
      assert chunks == chunks[..n] + [chunks[n]];
    }
  }

  /** Until a page-aligned request skips bytes, every size is a multiple of 0x80. That request
      leaves one free chunk of another size; all later ones are multiples of 0x80 again. */
  ghost predicate Shape(chunks: seq<Block>, bin: seq<Block>, top: nat) {
    match Gap(chunks)
    case None => top % UNIT == 0
    case Some(g) =>
      && top % UNIT == 0x70
      && g in bin && g.size % UNIT == 0x70 && g.size < PAGE
      && forall b :: b in chunks && Odd(b) ==> b == g
  }

  ghost predicate Good(h: Heap) {
    Wf(h) && Shape(h.chunks, h.bin, h.top)
  }

  // ---------------------------------------------------------------- one step

  /** Carving a chunk off the top and freeing it at once changes nothing. */
  lemma PushThenFree(h: Heap, nb: nat, len: nat)
    requires Wf(h) && nb <= h.topSize && ChunkSize(nb) && HEADER + len <= nb
    ensures Kfree(PushTop(h, nb, len), h.top + HEADER) == h
  {
    PushTopWf(h, nb, len);
    var h' := PushTop(h, nb, len);
    assert h'.chunks[..|h'.chunks| - 1] == h.chunks;
    assert h'.live - {h.top} == h.live;
  }

  lemma UnitOfPage(top: nat)
    ensures top % PAGE % UNIT == top % UNIT
  {
  }

  /** Within a page, units count up to 31. */
  lemma UnitsInPage(cur: nat)
    requires cur < PAGE
    ensures var u := cur / UNIT; u < 32 && cur == UNIT * u + cur % UNIT
  {
  }

  lemma WholeUnits(n: nat, r: nat)
    requires r < UNIT
    ensures (UNIT * n + r) % UNIT == r
  {
  }

  lemma UnitsOfSixteen(n: nat, r: nat)
    requires r == 0 || r == 0x70
    ensures UNIT * n + r == 0 || ChunkSize(UNIT * n + r)
  {
    assert UNIT * n + r == 16 * (8 * n + r / 16);
  }

  lemma ConsumeIs(top: nat, u: nat, r: nat)
    requires top % PAGE == UNIT * u + r && u < 32 && (r == 0 || r == 0x70)
    ensures Consume(top) == UNIT * (31 - u) + (0x70 - r)
  {
  }

  lemma ConsumeUnit(top: nat)
    requires top % UNIT == 0 || top % UNIT == 0x70
    ensures Consume(top) % UNIT == 0x70 - top % UNIT
    ensures Consume(top) == 0 || ChunkSize(Consume(top))
  {
    hide Consume, ChunkSize;
    UnitOfPage(top);
    UnitsInPage(top % PAGE);
    var u, r := top % PAGE / UNIT, top % UNIT;
    ConsumeIs(top, u, r);
    WholeUnits(31 - u, 0x70 - r);
    UnitsOfSixteen(31 - u, 0x70 - r);
  }

  lemma SkipSize(h: Heap)
    requires Good(h)
    ensures Consume(h.top) == 0 || ChunkSize(Consume(h.top))
  {
    ConsumeUnit(h.top);
  }

  lemma ShapePush(chunks: seq<Block>, bin: seq<Block>, bin': seq<Block>, top: nat, nb: nat)
    requires Shape(chunks, bin, top) && nb % UNIT == 0
    requires forall b :: b in bin ==> b in bin'
    ensures Gap(chunks + [Block(top, nb)]) == Gap(chunks)
    ensures Shape(chunks + [Block(top, nb)], bin', top + nb)
  {
    var c := Block(top, nb);
    assert (chunks + [c])[..|chunks|] == chunks;
    assert forall b :: b in chunks + [c] ==> b in chunks || b == c;
  }

  lemma PushTopGood(h: Heap, nb: nat, len: nat)
    requires Good(h) && nb <= h.topSize && ChunkSize(nb) && HEADER + len <= nb
    requires nb % UNIT == 0
    ensures Good(PushTop(h, nb, len))
    ensures Gap(PushTop(h, nb, len).chunks) == Gap(h.chunks)
  {
    PushTopWf(h, nb, len);
    ShapePush(h.chunks, h.bin, h.bin, h.top, nb);
  }

  lemma ShapeDrop(chunks: seq<Block>, bin: seq<Block>, top: nat)
    requires chunks != [] && Shape(chunks, bin, top)
    requires chunks[|chunks| - 1] !in bin
    requires chunks[|chunks| - 1].End() == top
    ensures Gap(chunks[..|chunks| - 1]) == Gap(chunks)
    ensures Shape(chunks[..|chunks| - 1], bin, chunks[|chunks| - 1].addr)
  {
    var n := |chunks| - 1;
    GapMember(chunks);
    assert chunks[n] in chunks;
    assert forall b :: b in chunks[..n] ==> b in chunks;
  }

  lemma KfreeGood(h: Heap, a: nat)
    requires Good(h) && a in h.live
    ensures Good(Kfree(h, a + HEADER))
    ensures Gap(Kfree(h, a + HEADER).chunks) == Gap(h.chunks)
  {
    KfreeWf(h, a);
    var c := Block(a, h.live[a].size);
    if c.End() == h.top {
      LastChunk(h, c);
      ShapeDrop(h.chunks, h.bin, h.top);
    } else {
      InsertedMembers(h.bin, InsertPos(h.bin, c.size), c);
    }
  }

  lemma TakeFromBinGood(h: Heap, k: nat, len: nat)
    requires Good(h) && k < |h.bin| && HEADER + len <= h.bin[k].size
    requires !Odd(h.bin[k])
    ensures Good(TakeFromBin(h, k, len))
    ensures Gap(TakeFromBin(h, k, len).chunks) == Gap(h.chunks)
  {
    TakeFromBinWf(h, k, len);
    GapMember(h.chunks);
    RemovedFromBin(h.bin, k);
  }

  lemma ShapeFirstGap(chunks: seq<Block>, bin: seq<Block>, bin': seq<Block>, top: nat, skip: nat)
    requires Shape(chunks, bin, top) && Gap(chunks).None?
    requires skip % UNIT == 0x70 && skip < PAGE
    requires Block(top, skip) in bin'
    ensures Gap(chunks + [Block(top, skip)]) == Some(Block(top, skip))
    ensures Shape(chunks + [Block(top, skip)], bin', top + skip)
  {
    var c := Block(top, skip);
    GapMember(chunks);
    assert (chunks + [c])[..|chunks|] == chunks;
    assert forall b :: b in chunks + [c] ==> b in chunks || b == c;
  }

  /** The page-aligned path that skips bytes: the gap goes to the bin, the block above it out. */
  function SkipAndPush(h: Heap, skip: nat, nb: nat, len: nat): Heap
    requires skip + nb <= h.topSize
  {
    h.(chunks := h.chunks + [Block(h.top, skip)] + [Block(h.top + skip, nb)],
       bin := InsertSorted(h.bin, Block(h.top, skip)),
       live := h.live[h.top + skip := Region(nb, len)],
       top := h.top + skip + nb,
       topSize := h.topSize - skip - nb)
  }

  lemma AddThenRemove<K, V>(m: map<K, V>, a: K, x: V, b: K, y: V)
    requires a !in m && a != b
    ensures m[a := x][b := y] - {a} == m[b := y]
  {
  }

  /** The heap with the gap and the block above it cut. */
  function CutTwice(h: Heap, skip: nat, nb: nat, len: nat): (full: Heap)
    requires skip + nb <= h.topSize
    ensures skip > 0 ==> h.top in full.live
  {
    PushTop(PushTop(h, skip, 0), nb, len)
  }

  lemma CutTwiceWf(h: Heap, skip: nat, nb: nat, len: nat)
    requires Wf(h) && skip + nb <= h.topSize
    requires ChunkSize(skip) && ChunkSize(nb) && HEADER + len <= nb
    ensures Wf(CutTwice(h, skip, nb, len)) && h.top in CutTwice(h, skip, nb, len).live
  {
    hide Wf;
    PushTopWf(h, skip, 0);
    PushTopWf(PushTop(h, skip, 0), nb, len);
  }

  /** That is what freeing the gap does, once the block above it was cut. */
  lemma SkipAndPushIs(h: Heap, skip: nat, nb: nat, len: nat)
    requires Wf(h) && 0 < skip && skip + nb <= h.topSize && ChunkSize(skip) && ChunkSize(nb) && HEADER + len <= nb
    ensures Freeable(CutTwice(h, skip, nb, len), h.top + HEADER)
    ensures Kfree(CutTwice(h, skip, nb, len), h.top + HEADER) == SkipAndPush(h, skip, nb, len)
  {
    hide Wf;
    LiveBelowTop(h);
    PushTopWf(h, skip, 0);
    AddThenRemove(h.live, h.top, Region(skip, 0), h.top + skip, Region(nb, len));
  }

  lemma SkipAndPushWf(h: Heap, skip: nat, nb: nat, len: nat)
    requires Wf(h) && skip + nb <= h.topSize
    requires ChunkSize(skip) && ChunkSize(nb) && HEADER + len <= nb
    ensures Wf(SkipAndPush(h, skip, nb, len))
  {
    hide Wf;
    CutTwiceWf(h, skip, nb, len);
    SkipAndPushIs(h, skip, nb, len);
    KfreeWf(CutTwice(h, skip, nb, len), h.top);
  }

  lemma ShapeSkip(chunks: seq<Block>, bin: seq<Block>, bin': seq<Block>, top: nat, nb: nat)
    requires Shape(chunks, bin, top) && nb % UNIT == 0
    requires forall b :: b in bin' <==> b in bin || b == Block(top, Consume(top))
    ensures
      var skip := Consume(top);
      var chunks' := chunks + [Block(top, skip)] + [Block(top + skip, nb)];
      && Shape(chunks', bin', top + skip + nb)
      && (Gap(chunks).Some? ==> Gap(chunks') == Gap(chunks))
  {
    var skip := Consume(top);
    ConsumeUnit(top);
    if Gap(chunks).None? {
      ShapeFirstGap(chunks, bin, bin', top, skip);
    } else {
      ShapePush(chunks, bin, bin', top, skip);
    }
    ShapePush(chunks + [Block(top, skip)], bin', bin', top + skip, nb);
  }

  lemma SkipAndPushGood(h: Heap, skip: nat, nb: nat, len: nat)
    requires Good(h) && skip == Consume(h.top) && skip > 0 && skip + nb <= h.topSize
    requires ChunkSize(nb) && nb % UNIT == 0 && HEADER + len <= nb
    ensures Good(SkipAndPush(h, skip, nb, len))
    ensures Gap(h.chunks).Some? ==> Gap(SkipAndPush(h, skip, nb, len).chunks) == Gap(h.chunks)
  {
    hide Wf, Shape, Gap;
    var c := Block(h.top, skip);
    SkipSize(h);
    SkipAndPushWf(h, skip, nb, len);
    InsertedMembers(h.bin, InsertPos(h.bin, skip), c);
    ShapeSkip(h.chunks, h.bin, InsertSorted(h.bin, c), h.top, nb);
  }

  // ---------------------------------------------------------------- kmalloc as a whole

  /** Nothing is lost or half-done when kmalloc fails, on the page-aligned path too. */
  lemma KmallocAllOrNothing(h: Heap, len: nat, align: nat)
    requires Good(h) && (align == NO_ALIGN || align == PAGE)
    ensures Kmalloc(h, len, align).1 == 0 ==> Kmalloc(h, len, align).0 == h
  {
    hide Wf, Shape, Gap, Kfree;
    var skip := Consume(h.top);
    SkipSize(h);
    if len < LIMIT && align == PAGE && 0 < skip <= h.topSize {
      PushThenFree(h, skip, 0);
    }
  }

  lemma RequestSize(len: nat)
    ensures var nb := RoundUp(len + HEADER);
      ChunkSize(nb) && nb % UNIT == 0 && HEADER + len <= nb
  {
    var nb := RoundUp(len + HEADER);
    assert nb % 16 == 0 by { assert nb == UNIT * (nb / UNIT); }
  }

  lemma KmallocGood(h: Heap, len: nat, align: nat)
    requires Good(h) && (align == NO_ALIGN || align == PAGE)
    ensures Good(Kmalloc(h, len, align).0)
    ensures Gap(h.chunks).Some? ==> Gap(Kmalloc(h, len, align).0.chunks) == Gap(h.chunks)
  {
    hide Wf, Shape, Gap, InsertSorted;
    var nb := RoundUp(len + HEADER);
    KmallocAllOrNothing(h, len, align);
    RequestSize(len);
    if Kmalloc(h, len, align).1 != 0 {
      var k := FitPos(h.bin, nb);
      var skip := Consume(h.top);
      if align == NO_ALIGN && k < |h.bin| {
        TakeFromBinGood(h, k, len);
      } else if align == NO_ALIGN || skip == 0 {
        PushTopGood(h, nb, len);
      } else {
        SkipSize(h);
        SkipAndPushIs(h, skip, nb, len);
        SkipAndPushGood(h, skip, nb, len);
      }
    }
  }

  ghost predicate HandedOut(h: Heap, h': Heap, r: nat, len: nat) {
    && r >= HEADER && r - HEADER !in h.live
    && h'.live == h.live[r - HEADER := Region(RoundUp(len + HEADER), len)]
  }

  /** What a successful kmalloc hands out: a new block big enough for the request, the only
      change to the set of live blocks. */
  lemma KmallocHandsOut(h: Heap, len: nat, align: nat)
    requires Good(h) && (align == NO_ALIGN || align == PAGE)
    requires Kmalloc(h, len, align).1 != 0
    ensures HandedOut(h, Kmalloc(h, len, align).0, Kmalloc(h, len, align).1, len)
  {
    hide Wf, Shape, InsertSorted;
    var nb := RoundUp(len + HEADER);
    RequestSize(len);
    var k := FitPos(h.bin, nb);
    var skip := Consume(h.top);
    if align == NO_ALIGN && k < |h.bin| {
      TakeFromBinWf(h, k, len);
    } else if align == NO_ALIGN || skip == 0 {
      PushTopWf(h, nb, len);
    } else {
      SkipSize(h);
      SkipAndPushIs(h, skip, nb, len);
      LiveBelowTop(h);
    }
  }

  /** A page-aligned request is answered with a multiple of 0x1000, or with null. */
  lemma KmallocAligned(h: Heap, len: nat)
    requires Good(h)
    ensures Kmalloc(h, len, PAGE).1 % PAGE == 0
  {
    hide Good, Kfree, InsertSorted;
  }

  // ---------------------------------------------------------------- what a call answers

  lemma UnitIs(len: nat, n: nat)
    requires len + 16 <= n < len + 16 + 0x80 && n % 0x80 == 0
    ensures RoundUp(len + HEADER) == n
  {
    var r := RoundUp(len + HEADER);
    var a, b := r / 0x80, n / 0x80;
    assert r == 0x80 * a && n == 0x80 * b;
    assert a <= b && b <= a;
  }

  /** A request of len bytes needs n, the least multiple of 0x80 that covers it and the 16 bytes of
      header. It gets the first chunk of the bin of exactly that size; without one, the bytes at the
      top; and null exactly if they do not suffice, or for 2^32 bytes and more. */
  lemma KmallocAnswers(h: Heap, len: nat, n: nat)
    requires len + 16 <= n < len + 16 + 0x80 && n % 0x80 == 0
    ensures
      var (h', p) := Kmalloc(h, len, 0);
      if len >= 0x1_0000_0000 then h' == h && p == 0
      else if forall b :: b in h.bin ==> b.size != n then
        if h.topSize < n then h' == h && p == 0
        else p == h.top + 16 && h'.bin == h.bin && h'.top == h.top + n && h'.topSize == h.topSize - n
      else
        exists k ::
          && 0 <= k < |h.bin| && h.bin[k].size == n && (forall i :: 0 <= i < k ==> h.bin[i].size != n)
          && p == h.bin[k].addr + 16 && h'.bin == h.bin[..k] + h.bin[k + 1..] && h'.top == h.top && h'.topSize == h.topSize
  {
    UnitIs(len, n);
    var k := FitPos(h.bin, n);
    if k < |h.bin| {
      assert h.bin[k] in h.bin;
    }
  }

  /** A page-aligned request gets the first multiple p of 0x1000 behind a header at the top, never a
      chunk of the bin; what is skipped in front of it goes to the bin. It is answered null exactly if
      the arena ends before p and n bytes, or for 2^32 bytes and more. */
  lemma KmallocPageAnswers(h: Heap, len: nat, n: nat, p: nat)
    requires Good(h)
    requires len + 16 <= n < len + 16 + 0x80 && n % 0x80 == 0
    requires h.top + 16 <= p < h.top + 16 + 0x1000 && p % 0x1000 == 0
    ensures
      var (h', r) := Kmalloc(h, len, 0x1000);
      if len >= 0x1_0000_0000 || h.base + h.length < p - 16 + n then h' == h && r == 0
      else
        && r == p && h'.top == p - 16 + n && h'.top + h'.topSize == h.base + h.length
        && forall b :: b in h'.bin <==> b in h.bin || (p - 16 > h.top && b == Block(h.top, p - 16 - h.top))
  {
    hide Wf, Shape, Gap, InsertSorted, RoundUp, Kfree, Consume;
    UnitIs(len, n);
    SkipIs(h.top, p);
    KmallocAllOrNothing(h, len, PAGE);
    TopEnds(h);
    RequestSize(len);
    SkipSize(h);
    var skip := Consume(h.top);
    if 0 < skip && skip + n <= h.topSize {
      SkipAndPushIs(h, skip, n, len);
      InsertedMembers(h.bin, InsertPos(h.bin, skip), Block(h.top, skip));
      SkippedBin(h, skip, n, len);
    }
  }

  lemma SkippedBin(h: Heap, skip: nat, n: nat, len: nat)
    requires skip + n <= h.topSize
    ensures
      var c, h' := Block(h.top, skip), SkipAndPush(h, skip, n, len);
      h'.bin == Inserted(h.bin, InsertPos(h.bin, skip), c) && h'.top == h.top + skip + n && h'.topSize == h.topSize - skip - n
  {
  }

  lemma TopEnds(h: Heap)
    requires Good(h)
    ensures h.top + h.topSize == h.base + h.length
  {
    hide Tiles, Partition;
  }

  lemma SkipIs(top: nat, p: nat)
    requires top + 16 <= p < top + 16 + 0x1000 && p % 0x1000 == 0
    ensures Consume(top) == p - 16 - top
  {
    var skip := Consume(top);
    var a, b := (top + skip + HEADER) / 0x1000, p / 0x1000;
    assert top + skip + HEADER == 0x1000 * a && p == 0x1000 * b;
    assert a <= b && b <= a;
  }

  /** A block that ends at the top goes back to the top; any other one goes to the bin, in front of the
      first chunk that is not smaller. */
  lemma KfreeAnswers(h: Heap, m: nat)
    requires Freeable(h, m)
    ensures
      var h', c := Kfree(h, m), Block(m - 16, h.live[m - 16].size);
      && h'.live == h.live - {m - 16}
      && if c.addr + c.size == h.top
         then h'.bin == h.bin && h'.top == c.addr && h'.topSize == h.topSize + c.size
         else
           && h'.top == h.top && h'.topSize == h.topSize
           && exists k ::
             && 0 <= k <= |h.bin| && h'.bin == h.bin[..k] + [c] + h.bin[k..]
             && (forall i :: 0 <= i < k ==> h.bin[i].size < c.size) && (k < |h.bin| ==> c.size <= h.bin[k].size)
  {
    var c := Block(m - 16, h.live[m - 16].size);
    var k := InsertPos(h.bin, c.size);
    assert InsertSorted(h.bin, c) == h.bin[..k] + [c] + h.bin[k..];
  }

  /** So a block that was freed serves the next request of its size. */
  lemma FreedServes(h: Heap, m: nat, len: nat, n: nat)
    requires Good(h) && Freeable(h, m) && h.live[m - 16].size == n
    requires len < 0x1_0000_0000 && len + 16 <= n < len + 16 + 0x80 && n % 0x80 == 0
    ensures Kmalloc(Kfree(h, m), len, 0).1 != 0
  {
    hide Wf, Shape, Kfree, Kmalloc;
    KfreeAnswers(h, m);
    KmallocAnswers(Kfree(h, m), len, n);
    var c := Block(m - 16, n);
    if c.addr + c.size != h.top {
      assert c in Kfree(h, m).bin;
    }
  }

  // ---------------------------------------------------------------- counting bytes

  ghost function Bytes(s: seq<Block>): nat
    decreases |s|
  {
    if s == [] then 0 else Bytes(s[..|s| - 1]) + s[|s| - 1].size
  }

  /** The bytes of the chunks that are (or are not) handed out. */
  ghost function BytesWhere(s: seq<Block>, live: map<nat, Region>, handedOut: bool): nat
    decreases |s|
  {
    if s == [] then 0
    else
      var b := s[|s| - 1];
      BytesWhere(s[..|s| - 1], live, handedOut) + if (b.addr in live) == handedOut then b.size else 0
  }

  lemma {:induction false} BytesAppend(s: seq<Block>, t: seq<Block>)
    ensures Bytes(s + t) == Bytes(s) + Bytes(t)
    decreases |t|
  {
    if t == [] {
      assert s + t == s;
    } else {
      var n := |t| - 1;
      assert (s + t)[..|s + t| - 1] == s + t[..n];
      BytesAppend(s, t[..n]);
    }
  }

  lemma BytesRemove(s: seq<Block>, k: nat)
    requires k < |s|
    ensures Bytes(s[..k] + s[k + 1..]) + s[k].size == Bytes(s)
  {
    var l, r := s[..k], s[k + 1..];
    BytesAppend(l, r);
    assert s[..k + 1][..k] == l;
    BytesAppend(s[..k + 1], r);
    assert s == s[..k + 1] + r;
  }

  lemma {:induction false} BytesSplit(s: seq<Block>, live: map<nat, Region>)
    ensures Bytes(s) == BytesWhere(s, live, true) + BytesWhere(s, live, false)
    decreases |s|
  {
    if s != [] {
      BytesSplit(s[..|s| - 1], live);
    }
  }

  lemma {:induction false} TiledBytes(chunks: seq<Block>, base: nat, top: nat)
    requires Tiles(chunks, base, top)
    ensures base + Bytes(chunks) == top
    decreases |chunks|
  {
    if chunks != [] {
      TiledBytes(chunks[..|chunks| - 1], base, chunks[|chunks| - 1].addr);
    }
  }

  lemma NoMembers(s: seq<Block>)
    requires forall b :: b !in s
    ensures s == []
  {
    if s != [] {
      HasMember(s);
    }
  }

  lemma HasMember(s: seq<Block>)
    requires s != []
    ensures exists b :: b in s
  {
    assert s[0] in s;
  }

  lemma PositionOf(s: seq<Block>, b: Block) returns (k: nat)
    requires b in s
    ensures k < |s| && s[k] == b
  {
    k :| 0 <= k < |s| && s[k] == b;
  }

  /** Taking one chunk, if it is free, off both lists. */
  lemma BothWithout(rest: seq<Block>, b: Block, live: map<nat, Region>, bin: seq<Block>) returns (bin': seq<Block>)
    requires NoDup(rest + [b]) && NoDup(bin)
    requires forall c :: c in bin <==> c in rest + [b] && c.addr !in live
    ensures NoDup(rest) && NoDup(bin')
    ensures forall c :: c in bin' <==> c in rest && c.addr !in live
    ensures Bytes(bin) == Bytes(bin') + if b.addr in live then 0 else b.size
  {
    hide Bytes;
    var chunks := rest + [b];
    assert chunks[|rest|] == b;
    assert forall i :: 0 <= i < |rest| ==> chunks[i] == rest[i];
    bin' := bin;
    if b.addr !in live {
      var k := PositionOf(bin, b);
      bin' := bin[..k] + bin[k + 1..];
      RemovedFromBin(bin, k);
      BytesRemove(bin, k);
    }
  }

  /** A list holding each free chunk once holds the free bytes, in whatever order. */
  lemma {:induction false} BinBytes(chunks: seq<Block>, live: map<nat, Region>, bin: seq<Block>)
    requires NoDup(chunks) && NoDup(bin)
    requires forall b :: b in bin <==> b in chunks && b.addr !in live
    ensures Bytes(bin) == BytesWhere(chunks, live, false)
    decreases |chunks|
  {
    hide NoDup;
    if chunks == [] {
      NoMembers(bin);
    } else {
      var n := |chunks| - 1;
      assert chunks == chunks[..n] + [chunks[n]];
      var bin' := BothWithout(chunks[..n], chunks[n], live, bin);
      BinBytes(chunks[..n], live, bin');
    }
  }

  /** Handed-out bytes, bin bytes and the untouched top always add up to the arena. */
  lemma Conservation(h: Heap)
    requires Wf(h)
    ensures BytesWhere(h.chunks, h.live, true) + Bytes(h.bin) + h.topSize == h.length
  {
    TilesOrdered(h.chunks, h.base, h.top);
    TiledBytes(h.chunks, h.base, h.top);
    BytesSplit(h.chunks, h.live);
    BinBytes(h.chunks, h.live, h.bin);
  }

  // ---------------------------------------------------------------- where chunks start

  /** What an address is mod 0x80, by whether it lies above the gap. */
  ghost function Residue(gap: Option<Block>, a: nat): nat {
    if gap.Some? && gap.value.End() <= a then 0x70 else 0
  }

  lemma UnitSum(a: nat, n: nat)
    ensures (a + n) % UNIT == (a % UNIT + n % UNIT) % UNIT
  {
  }

  /** Only the gap may have a size that is not a multiple of 0x80. */
  ghost predicate OneOdd(chunks: seq<Block>) {
    forall b :: b in chunks && Odd(b) ==> b.size % UNIT == 0x70 && Gap(chunks) == Some(b)
  }

  lemma OneOddPrefix(chunks: seq<Block>, base: nat, top: nat)
    requires Tiles(chunks, base, top) && OneOdd(chunks) && chunks != []
    ensures
      var b, rest := chunks[|chunks| - 1], chunks[..|chunks| - 1];
      && Tiles(rest, base, b.addr) && b.End() == top && OneOdd(rest)
      && (Gap(rest).Some? ==> Gap(chunks) == Gap(rest) && b.size % UNIT == 0)
      && (Gap(rest).Some? ==> Gap(rest).value in rest && Gap(rest).value.End() <= b.addr)
      && (Gap(rest).None? ==> b.size % UNIT == if Gap(chunks).Some? then 0x70 else 0)
      && (Gap(rest).None? && Gap(chunks).Some? ==> Gap(chunks).value == b)
  {
    var n := |chunks| - 1;
    var b, rest := chunks[n], chunks[..n];
    TilesOrdered(rest, base, b.addr);
    GapMember(rest);
    assert b in chunks && forall c :: c in rest ==> c in chunks;
  }

  lemma {:induction false} TopResidue(chunks: seq<Block>, base: nat, top: nat)
    requires Tiles(chunks, base, top) && base % UNIT == 0 && OneOdd(chunks)
    ensures top % UNIT == if Gap(chunks).None? then 0 else 0x70
    decreases |chunks|
  {
    hide OneOdd;
    if chunks != [] {
      var b, rest := chunks[|chunks| - 1], chunks[..|chunks| - 1];
      OneOddPrefix(chunks, base, top);
      TopResidue(rest, base, b.addr);
      UnitSum(b.addr, b.size);
    }
  }

  lemma {:induction false} StartsAt(chunks: seq<Block>, base: nat, top: nat, i: nat)
    requires Tiles(chunks, base, top) && base % UNIT == 0 && OneOdd(chunks) && i < |chunks|
    ensures chunks[i].addr % UNIT == Residue(Gap(chunks), chunks[i].addr)
    decreases |chunks|
  {
    hide OneOdd, Tiles, Gap;
    var n := |chunks| - 1;
    var b, rest := chunks[n], chunks[..n];
    OneOddPrefix(chunks, base, top);
    TopResidue(rest, base, b.addr);
    if i < n {
      TilesOrdered(rest, base, b.addr);
      StartsAt(rest, base, b.addr, i);
    }
  }

  /** Chunks up to the gap start at 0 mod 0x80, those above it at 0x70 mod 0x80. */
  lemma ChunkStarts(h: Heap)
    requires Good(h)
    ensures forall b :: b in h.chunks ==> b.addr % UNIT == Residue(Gap(h.chunks), b.addr)
  {
    GapMember(h.chunks);
    UnitOfPage(h.base);
    forall i | 0 <= i < |h.chunks|
      ensures h.chunks[i].addr % UNIT == Residue(Gap(h.chunks), h.chunks[i].addr)
    {
      StartsAt(h.chunks, h.base, h.top, i);
    }
  }

  // ---------------------------------------------------------------- runs

  datatype Op = Alloc(len: nat, align: nat) | Free(m: nat)

  /** What a caller may ask: one of the two alignments, or the return of a live block or null. */
  ghost predicate Legal(h: Heap, op: Op) {
    match op
    case Alloc(_, align) => align == NO_ALIGN || align == PAGE
    case Free(m) => m == 0 || Freeable(h, m)
  }

  ghost function Step(h: Heap, op: Op): Heap
    requires Legal(h, op)
  {
    match op
    case Alloc(len, align) => Kmalloc(h, len, align).0
    case Free(m) => Kfree(h, m)
  }

  ghost predicate IsRun(base: nat, length: nat, hs: seq<Heap>, ops: seq<Op>) {
    && |hs| == |ops| + 1
    && hs[0] == Init(base, length)
    && forall i :: 0 <= i < |ops| ==> Legal(hs[i], ops[i]) && hs[i + 1] == Step(hs[i], ops[i])
  }

  lemma StepGood(h: Heap, op: Op)
    requires Good(h) && Legal(h, op)
    ensures Good(Step(h, op))
    ensures Gap(h.chunks).Some? ==> Gap(Step(h, op).chunks) == Gap(h.chunks)
    ensures Step(h, op).base == h.base && Step(h, op).length == h.length
  {
    hide Wf, Shape, Gap, InsertSorted;
    match op {
      case Alloc(len, align) => KmallocGood(h, len, align);
      case Free(m) => if m != 0 { KfreeGood(h, m - HEADER); }
    }
  }

  lemma InitGood(base: nat, length: nat)
    requires 0 < base && base % PAGE == 0 && length < 0x8000_0000
    ensures Good(Init(base, length))
  {
    UnitOfPage(base);
  }

  /** Every state of every run is well formed. */
  lemma {:induction false} RunGood(base: nat, length: nat, hs: seq<Heap>, ops: seq<Op>, i: nat)
    requires 0 < base && base % PAGE == 0 && length < 0x8000_0000
    requires IsRun(base, length, hs, ops) && i < |hs|
    ensures Good(hs[i]) && hs[i].base == base && hs[i].length == length
    decreases i
  {
    hide Good, Kmalloc, Kfree, Step, Gap;
    if i == 0 {
      InitGood(base, length);
    } else {
      RunGood(base, length, hs, ops, i - 1);
      StepGood(hs[i - 1], ops[i - 1]);
    }
  }

  lemma {:induction false} GapStays(base: nat, length: nat, hs: seq<Heap>, ops: seq<Op>, i: nat, j: nat)
    requires 0 < base && base % PAGE == 0 && length < 0x8000_0000
    requires IsRun(base, length, hs, ops) && i <= j < |hs|
    requires Gap(hs[i].chunks).Some?
    ensures Gap(hs[j].chunks) == Gap(hs[i].chunks)
    decreases j
  {
    hide Good, Kmalloc, Kfree, Step, Gap;
    if i < j {
      GapStays(base, length, hs, ops, i, j - 1);
      RunGood(base, length, hs, ops, j - 1);
      StepGood(hs[j - 1], ops[j - 1]);
    }
  }

  /** The tiling theorem: in every state of every run the chunks cover [base, top) without
      overlap, each is in the bin exactly once or handed out, the bin ascends in size, every
      chunk can hold its list link, and no byte of the arena is lost. */
  lemma RunTiles(base: nat, length: nat, hs: seq<Heap>, ops: seq<Op>, i: nat)
    requires 0 < base && base % PAGE == 0 && length < 0x8000_0000
    requires IsRun(base, length, hs, ops) && i < |hs|
    ensures
      var h := hs[i];
      && Tiles(h.chunks, base, h.top) && h.top + h.topSize == base + length
      && NoDup(h.bin) && Ascending(h.bin)
      && (forall b :: b in h.chunks ==> b.size >= 0x70 && (b in h.bin) != (b.addr in h.live))
      && (forall b :: b in h.bin ==> b in h.chunks)
      && (forall a :: a in h.live ==> Block(a, h.live[a].size) in h.chunks)
      && BytesWhere(h.chunks, h.live, true) + Bytes(h.bin) + h.topSize == length
  {
    RunGood(base, length, hs, ops, i);
    Conservation(hs[i]);
  }

  /** The gap theorem: once a run has cut an odd-sized chunk, that chunk is the only one for the
      rest of the run; it stays in the bin, the top never retreats past it, and it decides where
      every other chunk starts. */
  lemma RunGap(base: nat, length: nat, hs: seq<Heap>, ops: seq<Op>, i: nat, j: nat, g: Block)
    requires 0 < base && base % PAGE == 0 && length < 0x8000_0000
    requires IsRun(base, length, hs, ops) && i <= j < |hs|
    requires g in hs[i].chunks && Odd(g)
    ensures g in hs[j].bin && g.size < PAGE && g.size % UNIT == 0x70 && g.End() <= hs[j].top
    ensures forall b :: b in hs[j].chunks && Odd(b) ==> b == g
    ensures forall b :: b in hs[j].chunks ==> b.addr % UNIT == if g.End() <= b.addr then 0x70 else 0
  {
    hide IsRun;
    RunGood(base, length, hs, ops, i);
    RunGood(base, length, hs, ops, j);
    GapMember(hs[i].chunks);
    GapStays(base, length, hs, ops, i, j);
    ChunkStarts(hs[j]);
    ChunksApart(hs[j]);
  }
}
