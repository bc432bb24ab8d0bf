/** The kernel allocator: fields and loops over raw memory, proved to follow `HeapModel`. */
module Kmalloc {
  import opened ByteMemory
  import opened HeapModel
  import opened HeapRuns
  import opened ChunkList

  /** How a call ends: with a pointer (0 for failure), or in panic(). */
  datatype Outcome = Returned(ptr: nat) | Panicked

  /** `prev` in the list walks: the arena's own sorted_bin, or a chunk. */
  datatype Link = BinHead | InChunk(addr: nat)

  predicate InvalidChunkSize(s: nat) {
    s == 0 || s >= LIMIT || s % 16 != 0
  }

  lemma NodeAt(m: seq<byte>, o: nat, first: nat, h: Heap, i: nat)
    requires Laid(m, o, first, h) && i < |h.bin|
    ensures Holds(m, o, h.bin[i].addr, h.bin[i].size)
    ensures Holds(m, o, h.bin[i].addr + HEADER, AddrAt(h.bin, i + 1))
    ensures 0 < h.bin[i].addr && h.bin[i].addr < 0x1_0000_0000_0000_0000
    ensures !InvalidChunkSize(h.bin[i].size)
    ensures AddrAt(h.bin, i + 1) < 0x1_0000_0000_0000_0000
    ensures h.bin[i].addr + MIN_CHUNK <= o + |m|
  {
    hide Linked, Sized;
    BinInside(h, i);
    BinInside(h, i + 1);
    ChunkInside(h, h.bin[i]);
    NodeFields(m, o, first, h.bin, h.chunks, i);
    SizeValid(h, h.bin[i]);
  }

  lemma NodeFields(m: seq<byte>, o: nat, first: nat, bin: seq<Block>, chunks: seq<Block>, i: nat)
    requires Linked(m, o, first, bin) && Sized(m, o, chunks)
    requires i < |bin| && bin[i] in chunks
    ensures Holds(m, o, bin[i].addr, bin[i].size)
    ensures Holds(m, o, bin[i].addr + HEADER, AddrAt(bin, i + 1))
  {
    assert LinkAt(m, o, bin, i);
  }

  lemma SizeValid(h: Heap, b: Block)
    requires Wf(h) && b in h.chunks
    ensures !InvalidChunkSize(b.size)
  {
    ChunkInside(h, b);
  }

  lemma LiveChunk(m: seq<byte>, o: nat, first: nat, h: Heap, a: nat)
    requires Laid(m, o, first, h) && a in h.live
    ensures Block(a, h.live[a].size) in h.chunks
    ensures Holds(m, o, a, h.live[a].size)
    ensures !InvalidChunkSize(h.live[a].size)
    ensures o <= h.base <= a && a + h.live[a].size <= o + |m|
    ensures a + MIN_CHUNK <= o + |m| && a + h.live[a].size < 0x1_0000_0000_0000_0000
    ensures HEADER + h.live[a].len <= h.live[a].size < 0x8000_0000
  {
    ChunkInside(h, Block(a, h.live[a].size));
    SizeValid(h, Block(a, h.live[a].size));
  }

  lemma InsertPosIs(bin: seq<Block>, size: nat, i: nat)
    requires i <= |bin|
    requires forall j :: 0 <= j < i ==> bin[j].size < size
    requires i < |bin| ==> size <= bin[i].size
    ensures i == InsertPos(bin, size)
  {
  }

  lemma FitPosIs(bin: seq<Block>, nb: nat, i: nat)
    requires i <= |bin|
    requires forall j :: 0 <= j < i ==> bin[j].size != nb
    requires i < |bin| ==> bin[i].size == nb
    ensures i == FitPos(bin, nb)
  {
  }

  /** The n bytes from pointer p, as far as there is memory. */
  ghost function BytesAt(m: seq<byte>, o: nat, p: nat, n: nat): seq<byte> {
    if o <= p && p + n <= o + |m| then m[p - o..p - o + n] else []
  }

  /** What the owners of the blocks handed out see, keyed by header address. */
  ghost function Views(m: seq<byte>, o: nat, live: map<nat, Region>): map<nat, seq<byte>> {
    map a | a in live :: BytesAt(m, o, a + HEADER, live[a].len)
  }

  class Arena {
    const ram: Ram
    var top: nat
    var topSize: nat
    var minAddr: nat
    var binNext: nat    // sorted_bin.next
    ghost var heap: Heap

    constructor (ram: Ram)
      ensures this.ram == ram
    {
      this.ram := ram;
      top, topSize, minAddr, binNext := 0, 0, 0, 0;
      heap := Init(0, 0);
    }

    /** The fields and the memory represent `heap`. */
    ghost predicate Rep()
      reads this, ram
    {
      && Laid(ram.bytes, ram.origin, binNext, heap)
      && top == heap.top && topSize == heap.topSize && minAddr == heap.base
    }

    ghost predicate Valid()
      reads this, ram
    {
      Rep() && Good(heap)
    }

    /** Every block handed out, as the bytes its owner asked for and sees. */
    ghost function Contents(): map<nat, seq<byte>>
      reads this, ram
    {
      Views(ram.bytes, ram.origin, heap.live)
    }

    method SetNext(prev: Link, v: nat)
      requires prev.InChunk? ==> ram.Has(prev.addr, MIN_CHUNK)
      requires v < 0x1_0000_0000_0000_0000
      modifies this`binNext, ram
      ensures |ram.bytes| == |old(ram.bytes)|
      ensures prev.BinHead? ==> binNext == v && ram.bytes == old(ram.bytes)
      ensures prev.InChunk? ==>
        binNext == old(binNext) && ram.bytes == Poke(old(ram.bytes), ram.origin, prev.addr + HEADER, v)
    {
      match prev {
        case BinHead => binNext := v;
        case InChunk(a) => ram.StoreWord(a + HEADER, v);
      }
    }

    /** `prev` and `now` are the ends of the i-th link of the bin. */
    ghost predicate AtLink(prev: Link, now: nat, i: nat)
      reads this
    {
      && i <= |heap.bin| && now == AddrAt(heap.bin, i)
      && prev == (if i == 0 then BinHead else InChunk(heap.bin[i - 1].addr))
      && (now != 0 <==> i < |heap.bin|)
    }

    /** The loop of insert_sorted: to the first chunk that is not smaller. */
    method WalkSmaller(size: nat) returns (prev: Link, now: nat, ghost i: nat)
      requires Rep()
      ensures AtLink(prev, now, i) && i == InsertPos(heap.bin, size)
    {
      hide Wf, Spans, Linked, Sized, Word, InsertPos;
      i := 0;
      FirstIs(ram.bytes, ram.origin, binNext, heap);
      now, prev := binNext, BinHead;
      while now != 0
        invariant AtLink(prev, now, i)
        invariant forall j :: 0 <= j < i ==> heap.bin[j].size < size
        decreases |heap.bin| - i
      {
        NodeAt(ram.bytes, ram.origin, binNext, heap, i);
        var nowSize := ram.LoadWord(now);
        if nowSize >= size {
          break;
        }
        prev := InChunk(now);
        now := ram.LoadWord(now + HEADER);
        NextLink(ram.bytes, ram.origin, binNext, heap, i + 1);
        i := i + 1;
      }
      InsertPosIs(heap.bin, size, i);
    }

    /** Thread the chunk at c into the bin, before the first chunk that is not smaller. */
    method InsertSorted(c: nat)
      requires Rep() && c in heap.live
      modifies this`binNext, this`heap, ram
      ensures heap == ToBin(old(heap), Block(c, old(heap).live[c].size))
      ensures Rep()
      ensures Keeps(old(ram.bytes), ram.bytes, ram.origin, heap)
    {
      hide Wf, Spans, Linked, Sized, Poke, Keeps, Word, SetWord, InsertPos, HeapModel.InsertSorted;
      ghost var b := Block(c, heap.live[c].size);
      LiveChunk(ram.bytes, ram.origin, binNext, heap, c);
      var size := ram.LoadWord(c);
      var prev, now;
      ghost var i;
      prev, now, i := WalkSmaller(size);
      LaidInsert(ram.bytes, ram.origin, binNext, heap, b);
      if i > 0 { NodeAt(ram.bytes, ram.origin, binNext, heap, i - 1); }
      if i < |heap.bin| { NodeAt(ram.bytes, ram.origin, binNext, heap, i); }
      SetNext(prev, c);
      ram.StoreWord(c + HEADER, now);
      heap := ToBin(heap, b);
    }

    /** The loop of fetch_sorted_bin: to the first chunk of exactly nb bytes. Returns false where
        the C code panics. */
    method WalkFit(nb: nat) returns (ok: bool, prev: Link, now: nat, ghost i: nat)
      requires Rep()
      ensures ok && AtLink(prev, now, i) && i == FitPos(heap.bin, nb)
    {
      hide Wf, Spans, Linked, Sized, Word, FitPos;
      ok, i := true, 0;
      FirstIs(ram.bytes, ram.origin, binNext, heap);
      now, prev := binNext, BinHead;
      while now != 0
        invariant AtLink(prev, now, i)
        invariant forall j :: 0 <= j < i ==> heap.bin[j].size != nb
        decreases |heap.bin| - i
      {
        NodeAt(ram.bytes, ram.origin, binNext, heap, i);
        var size := ram.LoadWord(now);
        if InvalidChunkSize(size) {
          ok := false;
          return;
        }
        if size == nb {
          break;
        }
        prev := InChunk(now);
        now := ram.LoadWord(now + HEADER);
        NextLink(ram.bytes, ram.origin, binNext, heap, i + 1);
        i := i + 1;
      }
      FitPosIs(heap.bin, nb, i);
    }

    /** The first chunk in the bin of exactly nb bytes, taken out; or 0. */
    method FetchSortedBin(nb: nat, ghost len: nat) returns (r: Outcome)
      requires Rep() && HEADER + len <= nb
      modifies this`binNext, this`heap, ram
      ensures
        var k := FitPos(old(heap).bin, nb);
        if k < |old(heap).bin|
        then r == Returned(old(heap).bin[k].addr + HEADER) && heap == TakeFromBin(old(heap), k, len)
        else r == Returned(0) && heap == old(heap)
      ensures Rep()
      ensures Keeps(old(ram.bytes), ram.bytes, ram.origin, old(heap))
    {
      hide Wf, Spans, Linked, Sized, Poke, Keeps, Word, SetWord, FitPos, SameBut;
      var ok, prev, now;
      ghost var i;
      ok, prev, now, i := WalkFit(nb);
      if !ok {
        return Panicked;
      }
      if now == 0 {
        KeepsItself(ram.bytes, ram.origin, heap);
        return Returned(0);
      }
      NodeAt(ram.bytes, ram.origin, binNext, heap, i);
      if i > 0 { NodeAt(ram.bytes, ram.origin, binNext, heap, i - 1); }
      var next := ram.LoadWord(now + HEADER);
      SetNext(prev, next);
      ghost var m1 := ram.bytes;
      ram.Memset(now, 0, MIN_CHUNK);
      ghost var m2 := ram.bytes;
      ram.StoreWord(now, nb);
      HeaderRebuilt(m1, m2, ram.bytes, ram.origin, now, nb);
      LaidTake(old(ram.bytes), ram.bytes, ram.origin, old(binNext), heap, i, len);
      heap := TakeFromBin(heap, i, len);
      return Returned(now + HEADER);
    }

    /** Carve nb bytes off the top, if there are so many. */
    method MallocTop(nb: nat, ghost len: nat) returns (ptr: nat)
      requires Rep() && ChunkSize(nb) && HEADER + len <= nb
      modifies this`top, this`topSize, this`heap, ram
      ensures
        if old(heap).topSize < nb
        then ptr == 0 && heap == old(heap) && ram.bytes == old(ram.bytes)
        else ptr == old(heap).top + HEADER && heap == PushTop(old(heap), nb, len)
      ensures Rep()
      ensures Keeps(old(ram.bytes), ram.bytes, ram.origin, old(heap))
    {
      hide Wf, Spans, Linked, Sized, Poke, Keeps;
      if topSize < nb {
        KeepsItself(ram.bytes, ram.origin, heap);
        return 0;
      }
      LaidPush(ram.bytes, ram.origin, binNext, heap, nb, len);
      topSize := topSize - nb;
      var c := top;
      ram.StoreWord(c, nb);
      top := top + nb;
      heap := PushTop(heap, nb, len);
      return c + HEADER;
    }

    /** Give a block back. Returns false where the C code panics. */
    method Kfree(mem: nat) returns (ok: bool)
      requires Rep() && (mem == 0 || Freeable(heap, mem))
      modifies this, ram
      ensures ok && heap == HeapModel.Kfree(old(heap), mem)
      ensures Rep()
      ensures Good(old(heap)) ==> Good(heap)
      ensures Keeps(old(ram.bytes), ram.bytes, ram.origin, heap)
      ensures Contents() == if mem == 0 then old(Contents()) else old(Contents()) - {mem - HEADER}
    {
      hide Wf, Spans, Linked, Sized, Poke, Keeps, Word, SetWord, HeapModel.InsertSorted, Shape, Views;
      if mem == 0 {
        KeepsItself(ram.bytes, ram.origin, heap);
        return true;
      }
      var c := mem - HEADER;
      LiveChunk(ram.bytes, ram.origin, binNext, heap, c);
      var size := ram.LoadWord(c);
      if InvalidChunkSize(size) {
        return false;
      }
      if size + c == top {
        LaidPop(ram.bytes, ram.origin, binNext, heap, Block(c, size));
        top := c;
        topSize := topSize + size;
        ram.StoreWord(c, 0);
        heap := PopTop(heap, Block(c, size));
      } else {
        InsertSorted(c);
      }
      FreedGood(old(heap), c);
      FreedViews(old(ram.bytes), ram.bytes, ram.origin, old(heap), heap, c);
      return true;
    }

    /** The memory exists, starts on a page and is short enough for memset to count in an `int`. */
    ghost predicate Usable(addr: nat, len: nat)
      reads ram
    {
      && 0 < addr && addr % PAGE == 0 && len < 0x8000_0000
      && ram.Has(addr, len) && addr + len < 0x1_0000_0000_0000_0000
    }

    /** Returns false where the C code panics. */
    method InitAllocator(addr: nat, len: nat) returns (ok: bool)
      modifies this
      ensures ok <==> len != 0 && len % PAGE == 0
      ensures !ok ==> unchanged(this)
      ensures ok ==> heap == Init(addr, len) && (top, topSize, minAddr, binNext) == (addr, len, addr, 0)
      ensures ok && Usable(addr, len) ==> Valid()
    {
      if len == 0 || len % PAGE != 0 {
        return false;
      }
      top, topSize, minAddr, binNext := addr, len, addr, 0;
      heap := Init(addr, len);
      if 0 < addr && addr % PAGE == 0 && len < 0x8000_0000 {
        InitGood(addr, len);
      }
      return true;
    }

    method IntKmalloc(nb: nat, align: nat, ghost len: nat) returns (r: Outcome)
      requires Valid() && len < LIMIT && nb == RoundUp(len + HEADER)
      modifies this, ram
      ensures align != NO_ALIGN && align != PAGE ==> r == Panicked && heap == old(heap)
      ensures align == NO_ALIGN || align == PAGE ==>
        r.Returned? && (heap, r.ptr) == HeapModel.Kmalloc(old(heap), len, align)
      ensures Rep()
      ensures Keeps(old(ram.bytes), ram.bytes, ram.origin, old(heap))
    {
      hide Wf, Shape, Laid, Keeps, FitPos, TakeFromBin, RoundUp, HeapModel.Kmalloc, HeapModel.Kfree, BytesToSkip, Consume,
        KeepsLive, Views, Freeable;
      RequestSize(len);
      if align == NO_ALIGN {
        PlainPath(heap, len);
        r := FetchSortedBin(nb, len);
        if r.Returned? && r.ptr == 0 {
          ghost var m := ram.bytes;
          var p := MallocTop(nb, len);
          r := Returned(p);
          KeepsLiveItself(old(heap));
          KeepsOver(old(ram.bytes), m, ram.bytes, ram.origin, old(heap), old(heap));
        }
        return r;
      }
      if align != PAGE {
        KeepsItself(ram.bytes, ram.origin, heap);
        return Panicked;
      }
      SkipSize(heap);
      PagePath(heap, len);
      var consume := BytesToSkip(top, align);
      SkipOfPage(top);
      var gap := 0;
      KeepsItself(ram.bytes, ram.origin, heap);
      if consume != 0 {
        gap := MallocTop(consume, 0);
        if gap == 0 {
          return Returned(0);
        }
      }
      ghost var h1, m1 := heap, ram.bytes;
      var p := MallocTop(nb, len);
      ghost var h2, m2 := heap, ram.bytes;
      GapFreeable(old(heap), consume, nb, len);
      var _ := Kfree(gap);
      KeepsOver(old(ram.bytes), m1, m2, ram.origin, old(heap), h1);
      KeepsOver(old(ram.bytes), m2, ram.bytes, ram.origin, old(heap), heap);
      return Returned(p);
    }

    /** A zeroed block of len bytes, or 0 and nothing changed. */
    method Kmalloc(len: nat, align: nat) returns (r: Outcome)
      requires Valid()
      modifies this, ram
      ensures len >= LIMIT ==> r == Returned(0)
      ensures r.Panicked? <==> len < LIMIT && align != NO_ALIGN && align != PAGE
      ensures align == NO_ALIGN || align == PAGE ==> (heap, r.ptr) == HeapModel.Kmalloc(old(heap), len, align)
      ensures Valid()
      ensures Keeps(old(ram.bytes), ram.bytes, ram.origin, old(heap))
      ensures r.Panicked? || r.ptr == 0 ==> heap == old(heap) && Contents() == old(Contents())
      ensures r.Returned? && r.ptr != 0 ==>
        && HandedOut(old(heap), heap, r.ptr, len)
        && Contents() == old(Contents())[r.ptr - HEADER := Zeros(len)]
        && (align == PAGE ==> r.ptr % PAGE == 0)
    {
      hide Wf, Shape, Laid, Keeps, RoundUp, HeapModel.Kmalloc, Views, HandedOut, SameBut;
      if len >= LIMIT {
        KeepsItself(ram.bytes, ram.origin, heap);
        if align == NO_ALIGN || align == PAGE { TooLong(heap, len, align); }
        return Returned(0);
      }
      var nb := RoundUp(len + HEADER);
      ghost var o, h, m := ram.origin, heap, ram.bytes;
      r := IntKmalloc(nb, align, len);
      ViewsKept(m, ram.bytes, o, h);
      if r == Panicked {
        return;
      }
      KmallocGood(h, len, align);
      KmallocAligned(h, len);
      KmallocAllOrNothing(h, len, align);
      if align != NO_ALIGN && r.ptr % align != 0 {
        return Panicked;
      }
      if r.ptr == 0 {
        return;
      }
      KmallocHandsOut(h, len, align);
      SameArena(h, len, align);
      ghost var a := r.ptr - HEADER;
      ghost var m1 := ram.bytes;
      NewBlock(m1, o, binNext, h, heap, r.ptr, len);
      ram.Memset(r.ptr, 0, len);
      MemsetClient(m1, ram.bytes, o, binNext, heap, a, len);
      KeepsTrans(m, m1, ram.bytes, o, h, heap.(live := heap.live - {a}));
      ViewsKept(m, ram.bytes, o, h);
      ViewsNew(ram.bytes, o, h, heap, a, len);
    }

    /** A client stores a word in its own block: its owner sees that, and no other owner anything. */
    method ClientStore(a: nat, at: nat, v: word)
      requires Valid() && a in heap.live && at + WORD_SIZE <= heap.live[a].len
      modifies ram
      ensures Valid() && ram.bytes == Poke(old(ram.bytes), ram.origin, a + HEADER + at, v)
      ensures Contents() == WrittenIn(old(Contents()), a, at, v)
      ensures Keeps(old(ram.bytes), ram.bytes, ram.origin, heap.(live := heap.live - {a}))
    {
      hide Wf, Shape, Laid, Keeps, Views, Poke, SameBut, WrittenIn;
      ghost var m, o := ram.bytes, ram.origin;
      var p := a + HEADER + at;
      LiveChunk(m, o, binNext, heap, a);
      PokeSame(m, o, p, v);
      LaidClient(m, Poke(m, o, p, v), o, binNext, heap, a, p, WORD_SIZE);
      ram.StoreWord(p, v);
      ViewsOther(m, ram.bytes, o, heap, a);
      OwnerSees(m, o, binNext, heap, a, at, v);
      WrittenViews(m, ram.bytes, o, heap, a, at, v);
    }

    /** Any run of calls and of writes by the owners: the heap goes through exactly the states the
        model gives, and each block holds what its owner was given and has written since. */
    method RunOps(events: seq<Event>, ghost hs: seq<Heap>)
      requires Valid() && IsHistory(hs, events) && hs[0] == heap
      modifies this, ram
      ensures Valid() && heap == hs[|events|]
      ensures Contents() == Evolved(old(Contents()), hs, events, |events|)
    {
      hide Wf, Shape, Laid, Keeps, Views, Good, HeapModel.Kmalloc, HeapModel.Kfree, BytesAt, WrittenIn, IsHistory, Zeros;
      ghost var start := Contents();
      HistorySize(hs, events);
      var n := 0;
      while n < |events|
        invariant n <= |events| && Valid() && heap == hs[n]
        invariant Contents() == Evolved(start, hs, events, n)
      {
        HistoryStep(hs, events, n);
        match events[n] {
          case Call(Alloc(len, align)) =>
            var r := Kmalloc(len, align);
          case Call(Free(m)) =>
            var ok := Kfree(m);
          case Write(a, at, v) =>
            ClientStore(a, at, v);
        }
        n := n + 1;
      }
    }
  }

  // ---------------------------------------------------------------- runs with their owners' writes

  /** A call to the allocator, or a word that the owner of a block stores in it. */
  datatype Event = Call(op: Op) | Write(a: nat, at: nat, v: word)

  ghost predicate Allowed(h: Heap, e: Event) {
    match e
    case Call(op) => Legal(h, op)
    case Write(a, at, _) => a in h.live && at + WORD_SIZE <= h.live[a].len
  }

  ghost function After(h: Heap, e: Event): Heap
    requires Allowed(h, e)
  {
    if e.Call? then Step(h, e.op) else h
  }

  ghost predicate IsHistory(hs: seq<Heap>, events: seq<Event>) {
    && |hs| == |events| + 1
    && forall i :: 0 <= i < |events| ==> Allowed(hs[i], events[i]) && hs[i + 1] == After(hs[i], events[i])
  }

  lemma HistorySize(hs: seq<Heap>, events: seq<Event>)
    requires IsHistory(hs, events)
    ensures |hs| == |events| + 1
  {
  }

  lemma HistoryStep(hs: seq<Heap>, events: seq<Event>, n: nat)
    requires IsHistory(hs, events) && n < |events|
    ensures Allowed(hs[n], events[n]) && hs[n + 1] == After(hs[n], events[n])
  {
  }

  ghost function WrittenIn(c: map<nat, seq<byte>>, a: nat, at: nat, v: word): map<nat, seq<byte>> {
    if a in c && at + WORD_SIZE <= |c[a]| then c[a := SetWord(c[a], at, v)] else c
  }

  /** What the owners see after one more event: a new block is zero, a freed one is gone, and a
      write changes one word of one block. */
  ghost function Seen(c: map<nat, seq<byte>>, h: Heap, e: Event): map<nat, seq<byte>>
    requires Allowed(h, e)
  {
    match e
    case Call(Alloc(len, align)) =>
      var p := HeapModel.Kmalloc(h, len, align).1;
      if p < HEADER then c else c[p - HEADER := Zeros(len)]
    case Call(Free(m)) => if m < HEADER then c else c - {m - HEADER}
    case Write(a, at, v) => WrittenIn(c, a, at, v)
  }

  ghost function Evolved(start: map<nat, seq<byte>>, hs: seq<Heap>, events: seq<Event>, n: nat): map<nat, seq<byte>>
    requires n <= |events| && IsHistory(hs, events)
  {
    if n == 0 then start
    else
      HistoryStep(hs, events, n - 1);
      Seen(Evolved(start, hs, events, n - 1), hs[n - 1], events[n - 1])
  }

  /** The event is no write over the word at `at` of block a, and does not replace the block. */
  ghost predicate Spares(h: Heap, e: Event, a: nat, at: nat)
    requires Allowed(h, e)
  {
    match e
    case Call(Alloc(len, align)) => HeapModel.Kmalloc(h, len, align).1 != a + HEADER
    case Call(Free(m)) => m != a + HEADER
    case Write(b, i, _) => b != a || i + WORD_SIZE <= at || at + WORD_SIZE <= i
  }

  /** An owner reads back the word it wrote last. */
  lemma {:induction false} ReadsLastWrite(start: map<nat, seq<byte>>, hs: seq<Heap>, events: seq<Event>, i: nat, n: nat,
                                          a: nat, at: nat, v: word)
    requires IsHistory(hs, events) && i < n <= |events| && events[i] == Write(a, at, v)
    requires a in Evolved(start, hs, events, i) && at + WORD_SIZE <= |Evolved(start, hs, events, i)[a]|
    requires forall j :: i < j < n ==> Allowed(hs[j], events[j]) && Spares(hs[j], events[j], a, at)
    ensures
      var c := Evolved(start, hs, events, n);
      a in c && at + WORD_SIZE <= |c[a]| && Word(c[a], at) == v
    decreases n
  {
    hide IsHistory, Allowed, Spares, Seen, Word;
    HistorySize(hs, events);
    HistoryStep(hs, events, n - 1);
    var c := Evolved(start, hs, events, n - 1);
    if i < n - 1 {
      ReadsLastWrite(start, hs, events, i, n - 1, a, at, v);
      SparedWord(c, hs[n - 1], events[n - 1], a, at);
    } else {
      WroteWord(c, hs[i], a, at, v);
    }
  }

  lemma WroteWord(c: map<nat, seq<byte>>, h: Heap, a: nat, at: nat, v: word)
    requires Allowed(h, Write(a, at, v)) && a in c && at + WORD_SIZE <= |c[a]|
    ensures
      var c' := Seen(c, h, Write(a, at, v));
      a in c' && at + WORD_SIZE <= |c'[a]| && Word(c'[a], at) == v
  {
    hide Word, Legal;
  }

  lemma SparedWord(c: map<nat, seq<byte>>, h: Heap, e: Event, a: nat, at: nat)
    requires Allowed(h, e) && Spares(h, e, a, at) && a in c && at + WORD_SIZE <= |c[a]|
    ensures
      var c' := Seen(c, h, e);
      a in c' && at + WORD_SIZE <= |c'[a]| && Word(c'[a], at) == Word(c[a], at)
  {
    hide Word, HeapModel.Kmalloc, Legal;
  }

  lemma {:induction false} StoreWithin(m: seq<byte>, i: nat, n: nat, v: nat, x: nat, y: nat)
    requires x <= i && i + n <= y <= |m|
    ensures StoreLE(m, i, n, v)[x..y] == StoreLE(m[x..y], i - x, n, v)
    decreases n
  {
    if n > 0 {
      var m' := m[i := v % 256];
      assert m'[x..y] == m[x..y][i - x := v % 256];
      StoreWithin(m', i + 1, n - 1, v / 256, x, y);
    }
  }

  lemma SetWordWithin(m: seq<byte>, i: nat, v: word, x: nat, y: nat)
    requires x <= i && i + WORD_SIZE <= y <= |m|
    ensures SetWord(m, i, v)[x..y] == SetWord(m[x..y], i - x, v)
  {
    hide SetWord, StoreLE;
    SetWordIs(m, i, v);
    SetWordIs(m[x..y], i - x, v);
    StoreWithin(m, i, WORD_SIZE, v, x, y);
  }

  lemma PokeIs(m: seq<byte>, o: nat, p: nat, v: word)
    requires InMemory(m, o, p)
    ensures Poke(m, o, p, v) == SetWord(m, p - o, v)
  {
    hide SetWord;
  }

  /** The owner's view of its block after a store. */
  lemma OwnerSees(m: seq<byte>, o: nat, first: nat, h: Heap, a: nat, at: nat, v: word)
    requires Laid(m, o, first, h) && a in h.live && at + WORD_SIZE <= h.live[a].len
    ensures
      var len := h.live[a].len;
      && |BytesAt(m, o, a + HEADER, len)| == len
      && BytesAt(Poke(m, o, a + HEADER + at, v), o, a + HEADER, len) == SetWord(BytesAt(m, o, a + HEADER, len), at, v)
  {
    hide Wf, Linked, Sized, Word, SetWord, Poke, Laid;
    LiveChunk(m, o, first, h, a);
    var x, len := a + HEADER - o, h.live[a].len;
    PokeIs(m, o, a + HEADER + at, v);
    SetWordWithin(m, x + at, v, x, x + len);
  }

  lemma WrittenViews(m: seq<byte>, m': seq<byte>, o: nat, h: Heap, a: nat, at: nat, v: word)
    requires a in h.live && at + WORD_SIZE <= h.live[a].len
    requires Views(m', o, h.live) - {a} == Views(m, o, h.live) - {a}
    requires |BytesAt(m, o, a + HEADER, h.live[a].len)| == h.live[a].len
    requires BytesAt(m', o, a + HEADER, h.live[a].len) == SetWord(BytesAt(m, o, a + HEADER, h.live[a].len), at, v)
    ensures Views(m', o, h.live) == WrittenIn(Views(m, o, h.live), a, at, v)
  {
    hide BytesAt, SetWord;
    var c, c' := Views(m, o, h.live), Views(m', o, h.live);
    forall x | x in h.live && x != a
      ensures c'[x] == c[x]
    {
      assert x in c' - {a};
      assert (c' - {a})[x] == c'[x] && (c - {a})[x] == c[x];
    }
  }

  ghost function Zeros(n: nat): seq<byte> {
    seq(n, _ => 0)
  }

  lemma TooLong(h: Heap, len: nat, align: nat)
    requires len >= LIMIT && (align == NO_ALIGN || align == PAGE)
    ensures HeapModel.Kmalloc(h, len, align) == (h, 0)
  {
  }

  lemma SameArena(h: Heap, len: nat, align: nat)
    requires align == NO_ALIGN || align == PAGE
    ensures HeapModel.Kmalloc(h, len, align).0.base == h.base
    ensures HeapModel.Kmalloc(h, len, align).0.length == h.length
  {
    hide HeapModel.InsertSorted, FitPos, RoundUp, Consume;
  }

  lemma SameBytesAt(m: seq<byte>, m': seq<byte>, o: nat, p: nat, n: nat, k: int)
    requires Same(m, m', o, p, k) && n <= k
    ensures BytesAt(m', o, p, n) == BytesAt(m, o, p, n)
  {
  }

  /** Blocks that were kept still read the same. */
  lemma ViewsKept(m: seq<byte>, m': seq<byte>, o: nat, h: Heap)
    requires Wf(h) && Keeps(m, m', o, h)
    ensures Views(m', o, h.live) == Views(m, o, h.live)
  {
    hide Wf, BytesAt, Same, SameBut;
    LiveLens(h);
    forall a | a in h.live
      ensures BytesAt(m', o, a + HEADER, h.live[a].len) == BytesAt(m, o, a + HEADER, h.live[a].len)
    {
      SameBytesAt(m, m', o, a + HEADER, h.live[a].len, h.live[a].size - HEADER);
    }
  }

  /** kfree takes one block away and leaves the others as they were. */
  lemma FreedViews(m: seq<byte>, m': seq<byte>, o: nat, h: Heap, h': Heap, a: nat)
    requires Wf(h') && Keeps(m, m', o, h')
    requires h'.live == h.live - {a}
    ensures Views(m', o, h'.live) == Views(m, o, h.live) - {a}
  {
    hide Wf, BytesAt, Keeps;
    ViewsKept(m, m', o, h');
  }

  lemma FreedGood(h: Heap, a: nat)
    requires Wf(h) && a in h.live
    ensures HeapModel.Kfree(h, a + HEADER).live == h.live - {a}
    ensures Good(h) ==> Good(HeapModel.Kfree(h, a + HEADER))
  {
    hide Wf, Shape, HeapModel.InsertSorted;
    if Good(h) {
      KfreeGood(h, a);
    }
  }

  lemma LiveLens(h: Heap)
    requires Wf(h)
    ensures forall a :: a in h.live ==> HEADER + h.live[a].len <= h.live[a].size
  {
  }

  lemma ViewsOther(m: seq<byte>, m': seq<byte>, o: nat, h: Heap, a: nat)
    requires Wf(h) && a in h.live && Keeps(m, m', o, h.(live := h.live - {a}))
    ensures Views(m', o, h.live) - {a} == Views(m, o, h.live) - {a}
  {
    hide Wf, BytesAt, Same, SameBut;
    LiveLens(h);
    forall x | x in h.live && x != a
      ensures BytesAt(m', o, x + HEADER, h.live[x].len) == BytesAt(m, o, x + HEADER, h.live[x].len)
    {
      assert x in h.live - {a};
      SameBytesAt(m, m', o, x + HEADER, h.live[x].len, h.live[x].size - HEADER);
    }
  }

  /** A block just handed out lies in memory and fits an `int`-counted memset. */
  lemma NewBlock(m: seq<byte>, o: nat, first: nat, h: Heap, h': Heap, p: nat, len: nat)
    requires Laid(m, o, first, h') && HandedOut(h, h', p, len)
    ensures p >= HEADER && p - HEADER in h'.live && h'.live[p - HEADER].len == len
    ensures o <= p && p + len <= o + |m| && len < 0x8000_0000
    ensures h'.live - {p - HEADER} == h.live
    ensures h'.base == h.base && h'.length == h.length ==>
      KeepsLive(h, h'.(live := h'.live - {p - HEADER}))
  {
    hide Wf, Linked, Sized, RoundUp;
    LiveChunk(m, o, first, h', p - HEADER);
    assert h'.live - {p - HEADER} == h.live;
  }

  lemma MemsetClient(m: seq<byte>, m': seq<byte>, o: nat, first: nat, h: Heap, a: nat, len: nat)
    requires Laid(m, o, first, h) && a in h.live && h.live[a].len == len
    requires |m'| == |m| && forall i :: 0 <= i < |m| ==>
      m'[i] == if a + HEADER - o <= i < a + HEADER - o + len then 0 else m[i]
    ensures Laid(m', o, first, h)
    ensures Keeps(m, m', o, h.(live := h.live - {a}))
    ensures BytesAt(m', o, a + HEADER, len) == Zeros(len)
  {
    hide Wf, Linked, Sized, Keeps;
    LiveChunk(m, o, first, h, a);
    LaidClient(m, m', o, first, h, a, a + HEADER, len);
  }

  lemma ViewsNew(m: seq<byte>, o: nat, h: Heap, h': Heap, a: nat, len: nat)
    requires a !in h.live && a in h'.live && h'.live == h.live[a := h'.live[a]]
    requires h'.live[a].len == len && BytesAt(m, o, a + HEADER, len) == Zeros(len)
    ensures Views(m, o, h'.live) == Views(m, o, h.live)[a := Zeros(len)]
  {
    hide BytesAt;
  }

  /** From `top` to the next address that is a header's length below a multiple of `align`. */
  function BytesToSkip(top: nat, align: nat): nat
    requires align > HEADER
  {
    var cur := top % align;
    ((align - HEADER) - cur) % align
  }

  lemma SkipOfPage(top: nat)
    ensures BytesToSkip(top, PAGE) == Consume(top)
  {
  }

  lemma PlainPath(h: Heap, len: nat)
    requires len < LIMIT
    ensures
      var nb := RoundUp(len + HEADER);
      var k := FitPos(h.bin, nb);
      HeapModel.Kmalloc(h, len, NO_ALIGN) ==
        if k < |h.bin| then (TakeFromBin(h, k, len), h.bin[k].addr + HEADER)
        else if h.topSize < nb then (h, 0)
        else (PushTop(h, nb, len), h.top + HEADER)
  {
  }

  lemma PagePath(h: Heap, len: nat)
    requires Wf(h) && len < LIMIT && (Consume(h.top) == 0 || ChunkSize(Consume(h.top)))
    ensures
      var nb, skip := RoundUp(len + HEADER), Consume(h.top);
      if h.topSize < skip then HeapModel.Kmalloc(h, len, PAGE) == (h, 0)
      else
        var cut := if skip == 0 then h else PushTop(h, skip, 0);
        var full := if cut.topSize < nb then cut else PushTop(cut, nb, len);
        var gap := if skip == 0 then 0 else h.top + HEADER;
        && (gap == 0 || Freeable(full, gap))
        && HeapModel.Kmalloc(h, len, PAGE) ==
             (HeapModel.Kfree(full, gap), if cut.topSize < nb then 0 else cut.top + HEADER)
  {
    hide Wf, RoundUp, ChunkSize;
    RequestSize(len);
    if Consume(h.top) <= h.topSize {
      GapFreeable(h, Consume(h.top), RoundUp(len + HEADER), len);
    }
  }

  /** The heaps the page-aligned path goes through, and that none of them loses a block. */
  lemma GapFreeable(h: Heap, skip: nat, nb: nat, len: nat)
    requires Wf(h) && skip <= h.topSize && ChunkSize(nb) && HEADER + len <= nb
    requires skip == 0 || ChunkSize(skip)
    ensures
      var cut := if skip == 0 then h else PushTop(h, skip, 0);
      var full := if cut.topSize < nb then cut else PushTop(cut, nb, len);
      var gap := if skip == 0 then 0 else h.top + HEADER;
      && (gap == 0 || Freeable(full, gap))
      && KeepsLive(h, cut) && KeepsLive(cut, full) && KeepsLive(h, HeapModel.Kfree(full, gap))
  {
    hide Wf, HeapModel.InsertSorted;
    LiveBelowTop(h);
    if skip != 0 {
      PushTopWf(h, skip, 0);
      LiveBelowTop(PushTop(h, skip, 0));
    }
  }

  lemma KeepsLiveItself(h: Heap)
    ensures KeepsLive(h, h)
  {
  }

  lemma KeepsOver(m: seq<byte>, m1: seq<byte>, m2: seq<byte>, o: nat, h: Heap, h1: Heap)
    requires Keeps(m, m1, o, h) && Keeps(m1, m2, o, h1) && KeepsLive(h, h1)
    ensures Keeps(m, m2, o, h)
  {
    hide Keeps;
    KeepsTrans(m, m1, m2, o, h, h1);
  }

  ghost predicate KeepsLive(h: Heap, h': Heap) {
    && h'.base == h.base && h'.length == h.length
    && forall a :: a in h.live ==> a in h'.live && h'.live[a] == h.live[a]
  }

  /** memset of a header, then its size. */
  lemma HeaderRebuilt(m: seq<byte>, m1: seq<byte>, m2: seq<byte>, o: nat, p: nat, size: nat)
    requires o <= p && p + MIN_CHUNK <= o + |m| && size < 0x1_0000_0000_0000_0000
    requires |m1| == |m| && forall i :: 0 <= i < |m1| ==> m1[i] == if p - o <= i < p - o + MIN_CHUNK then 0 else m[i]
    requires m2 == Poke(m1, o, p, size)
    ensures SameBut(m, m2, o, p, MIN_CHUNK)
    ensures Holds(m2, o, p, size)
  {
  }

  lemma NextLink(m: seq<byte>, o: nat, first: nat, h: Heap, i: nat)
    requires Laid(m, o, first, h) && i <= |h.bin|
    ensures AddrAt(h.bin, i) != 0 <==> i < |h.bin|
  {
    hide Laid;
    if i < |h.bin| {
      NodeAt(m, o, first, h, i);
    }
  }

  lemma FirstIs(m: seq<byte>, o: nat, first: nat, h: Heap)
    requires Laid(m, o, first, h)
    ensures first == AddrAt(h.bin, 0) && (first != 0 <==> h.bin != [])
  {
    hide Wf, Sized;
    NextLink(m, o, first, h, 0);
  }
}
