/** What a run of the kernel amounts to: calls that map user pages, between allocations, frees and
    writes of blocks of the kernel's own. The page map holds the last call for each page, and each
    block what was written into it. */
module KernelRuns {
  import opened ByteMemory
  import opened HeapModel
  import opened HeapRuns
  import opened ChunkList
  import opened Kmalloc
  import opened PageWalk
  import opened UserPaging

  // ---------------------------------------------------------------- calls

  datatype Call = Call(vaddr: word, paddr: word, prot: nat)

  /** The page map after a list of calls, each overwriting its own page. */
  ghost function PagesAfter(pages: map<nat, Leaf>, calls: seq<Call>): map<nat, Leaf>
    decreases |calls|
  {
    if calls == [] then pages
    else
      var c := calls[|calls| - 1];
      PagesAfter(pages, calls[..|calls| - 1])[c.vaddr / TABLE := LeafOf(c.paddr, c.prot)]
  }

  /** The last call that names a page. */
  ghost function LastCall(calls: seq<Call>, page: nat): Option<Call>
    decreases |calls|
  {
    if calls == [] then None
    else if calls[|calls| - 1].vaddr / 0x1000 == page then Some(calls[|calls| - 1])
    else LastCall(calls[..|calls| - 1], page)
  }

  lemma {:induction false} LastCallDecides(pages: map<nat, Leaf>, calls: seq<Call>, page: nat)
    ensures
      var after := PagesAfter(pages, calls);
      match LastCall(calls, page)
      case None => (page in after <==> page in pages) && (page in pages ==> after[page] == pages[page])
      case Some(c) => page in after && after[page] == LeafOf(c.paddr, c.prot)
    decreases |calls|
  {
    if calls != [] {
      LastCallDecides(pages, calls[..|calls| - 1], page);
    }
  }

  // ---------------------------------------------------------------- actions

  /** Release and Store name the block of the nth allocation. */
  datatype Action = Map(call: Call) | Allocate(len: nat, align: nat) | Release(nth: nat) | Store(nth: nat, at: nat, v: word)

  ghost function Calls(actions: seq<Action>): seq<Call> {
    if actions == [] then []
    else
      var a := actions[|actions| - 1];
      Calls(actions[..|actions| - 1]) + if a.Map? then [a.call] else []
  }

  /** What is in the block of each allocation: zeros, and then what was stored. */
  ghost function Data(actions: seq<Action>): seq<seq<byte>> {
    if actions == [] then [] else DataAfter(Data(actions[..|actions| - 1]), actions[|actions| - 1])
  }

  ghost function DataAfter(data: seq<seq<byte>>, a: Action): seq<seq<byte>> {
    if a.Allocate? then data + [Zeros(a.len)]
    else if a.Store? && a.nth < |data| && a.at + WORD_SIZE <= |data[a.nth]|
    then data[a.nth := SetWord(data[a.nth], a.at, a.v)]
    else data
  }

  /** The nth allocation has been made and not been freed. */
  ghost predicate Held(actions: seq<Action>, nth: nat) {
    nth < |Data(actions)| && Release(nth) !in actions
  }

  /** Only blocks that are held are freed and written, and within their lengths. */
  ghost predicate Proper(actions: seq<Action>) {
    forall n :: 0 <= n < |actions| ==> ProperNext(actions[..n], actions[n])
  }

  ghost predicate ProperNext(done: seq<Action>, a: Action) {
    && (a.Release? ==> Held(done, a.nth))
    && (a.Store? ==> Held(done, a.nth) && a.at + WORD_SIZE <= |Data(done)[a.nth]|)
  }

  lemma OneMore(actions: seq<Action>, n: nat)
    requires n < |actions| && Proper(actions)
    ensures actions[..n + 1] == actions[..n] + [actions[n]] && ProperNext(actions[..n], actions[n])
  {
  }

  lemma DataNext(done: seq<Action>, a: Action)
    ensures Data(done + [a]) == DataAfter(Data(done), a)
    ensures forall i: nat :: Held(done + [a], i) <==> i < |Data(done + [a])| && Release(i) !in done && a != Release(i)
  {
    hide SetWord;
    assert (done + [a])[..|done|] == done;
  }

  lemma CallsNext(pages: map<nat, Leaf>, done: seq<Action>, a: Action)
    ensures PagesAfter(pages, Calls(done + [a])) ==
      if a.Map? then PagesAfter(pages, Calls(done))[a.call.vaddr / TABLE := LeafOf(a.call.paddr, a.call.prot)]
      else PagesAfter(pages, Calls(done))
  {
    hide LeafOf;
    assert (done + [a])[..|done|] == done;
    if a.Map? {
      assert (Calls(done) + [a.call])[..|Calls(done)|] == Calls(done);
    } else {
      assert Calls(done) + [] == Calls(done);
    }
  }

  // ---------------------------------------------------------------- blocks of the kernel's own

  /** The contents of all blocks in use, keyed by header address as in Kmalloc. */
  type Blocks = map<nat, seq<byte>>

  /** The block at p is in use, is no page table, and holds these bytes. */
  ghost predicate Private(c: Blocks, node: map<Key, nat>, p: nat, data: seq<byte>) {
    p >= HEADER && p - HEADER in c && c[p - HEADER] == data && forall k :: k in node ==> KERNEL_BASE + node[k] != p
  }

  ghost predicate IsTable(node: map<Key, nat>, a: nat) {
    exists k :: k in node && KERNEL_BASE + node[k] == a + HEADER
  }

  /** Every block but the tables is as it was, and only tables are new. */
  ghost predicate Undisturbed(c: Blocks, node: map<Key, nat>, c': Blocks, node': map<Key, nat>) {
    && (forall p: nat, data {:trigger Private(c', node', p, data)} :: Private(c, node, p, data) ==> Private(c', node', p, data))
    && (forall a: nat {:trigger a in c'} :: (a in c ==> a in c') && (a in c' ==> a in c || IsTable(node', a)))
    && (forall a: nat {:trigger IsTable(node', a)} :: IsTable(node, a) ==> IsTable(node', a))
  }

  lemma UndisturbedItself(c: Blocks, node: map<Key, nat>)
    ensures Undisturbed(c, node, c, node)
  {
  }

  lemma UndisturbedTwice(c: Blocks, node: map<Key, nat>, c1: Blocks, node1: map<Key, nat>, c2: Blocks, node2: map<Key, nat>)
    requires Undisturbed(c, node, c1, node1) && Undisturbed(c1, node1, c2, node2)
    ensures Undisturbed(c, node, c2, node2)
  {
    hide Private, IsTable;
    forall p: nat, data | Private(c, node, p, data)
      ensures Private(c2, node2, p, data)
    {
      assert Private(c1, node1, p, data);
    }
    forall a: nat
      ensures a in c ==> a in c2
      ensures a in c2 ==> a in c || IsTable(node2, a)
    {
      assert a in c ==> a in c1;
      assert IsTable(node1, a) ==> IsTable(node2, a);
    }
    forall a: nat | IsTable(node, a)
      ensures IsTable(node2, a)
    {
      assert IsTable(node1, a);
    }
  }

  /** A table made of a new block. */
  lemma TableMade(c: Blocks, node: map<Key, nat>, k: Key, p: nat, zeros: seq<byte>)
    requires p >= KERNEL_BASE && p - HEADER !in c && k !in node
    ensures Undisturbed(c, node, c[p - HEADER := zeros], node[k := p - KERNEL_BASE])
  {
    var c', node' := c[p - HEADER := zeros], node[k := p - KERNEL_BASE];
    forall a: nat | IsTable(node, a)
      ensures IsTable(node', a)
    {
      var j :| j in node && KERNEL_BASE + node[j] == a + HEADER;
      assert node'[j] == node[j];
    }
    assert k in node' && KERNEL_BASE + node'[k] == (p - HEADER) + HEADER;
  }

  /** An entry written in a table. */
  lemma TableWritten(m: seq<byte>, m': seq<byte>, first: nat, h: Heap, node: map<Key, nat>, k: Key, i: nat, e: word)
    requires Laid(m, KERNEL_BASE, first, h) && k in node && Owned(h, node[k]) && Fits(m, node[k]) && i < ENTRIES
    requires m' == Poke(m, KERNEL_BASE, KERNEL_BASE + node[k] + 8 * i, e)
    ensures Undisturbed(Views(m, KERNEL_BASE, h.live), node, Views(m', KERNEL_BASE, h.live), node)
  {
    hide Wf, Linked, Sized, Same, SameBut, BytesAt, Poke, Keeps;
    var t, c, c' := KERNEL_BASE + node[k], Views(m, KERNEL_BASE, h.live), Views(m', KERNEL_BASE, h.live);
    forall a: nat | a in c && a + HEADER != t
      ensures c'[a] == c[a]
    {
      EntryElsewhere(m, m', first, h, node[k], i, e, a);
    }
  }

  lemma EntryElsewhere(m: seq<byte>, m': seq<byte>, first: nat, h: Heap, t: nat, i: nat, e: word, a: nat)
    requires Laid(m, KERNEL_BASE, first, h) && Owned(h, t) && Fits(m, t) && i < ENTRIES
    requires m' == Poke(m, KERNEL_BASE, KERNEL_BASE + t + 8 * i, e)
    requires a in h.live && a + HEADER != KERNEL_BASE + t
    ensures BytesAt(m', KERNEL_BASE, a + HEADER, h.live[a].len) == BytesAt(m, KERNEL_BASE, a + HEADER, h.live[a].len)
  {
    hide Laid, Same, SameBut, BytesAt, Poke;
    var p := KERNEL_BASE + t;
    PokeSame(m, KERNEL_BASE, p + 8 * i, e);
    LiveChunk(m, KERNEL_BASE, first, h, a);
    if p - HEADER in h.live && h.live[p - HEADER].len == TABLE {
      WordElsewhere(m, m', first, h, p - HEADER, p + 8 * i, a);
    } else {
      LaidOutside(m, m', KERNEL_BASE, first, h, p + 8 * i, WORD_SIZE);
    }
    SameBytesAt(m, m', KERNEL_BASE, a + HEADER, h.live[a].len, h.live[a].size - HEADER);
  }

  lemma WordElsewhere(m: seq<byte>, m': seq<byte>, first: nat, h: Heap, b: nat, q: nat, a: nat)
    requires Laid(m, KERNEL_BASE, first, h) && a in h.live && b in h.live && a != b
    requires b + HEADER <= q && q + WORD_SIZE <= b + HEADER + h.live[b].len
    requires SameBut(m, m', KERNEL_BASE, q, WORD_SIZE)
    ensures Same(m, m', KERNEL_BASE, a + HEADER, h.live[a].size - HEADER)
  {
    hide Laid, Same, SameBut;
    LiveChunk(m, KERNEL_BASE, first, h, b);
    LaidClient(m, m', KERNEL_BASE, first, h, b, q, WORD_SIZE);
    assert a in h.live - {b};
  }

  // ---------------------------------------------------------------- the blocks held in a run

  ghost predicate HeldAt(ptrs: seq<nat>, done: seq<Action>, a: nat) {
    exists i :: 0 <= i < |ptrs| && Held(done, i) && ptrs[i] == a + HEADER
  }

  /** The pointers of the blocks held: null, or those of distinct blocks that were not in use at
      the start and hold what was written. */
  ghost predicate Holding(c0: Blocks, c: Blocks, node: map<Key, nat>, ptrs: seq<nat>, done: seq<Action>) {
    && |ptrs| == |Data(done)| && (forall i: nat :: Release(i) in done ==> i < |ptrs|)
    && (forall i {:trigger Held(done, i)} :: 0 <= i < |ptrs| && Held(done, i) && ptrs[i] != 0 ==>
          Private(c, node, ptrs[i], Data(done)[i]) && ptrs[i] - HEADER !in c0)
    && (forall i, j {:trigger Held(done, i), Held(done, j)} ::
          0 <= i < j < |ptrs| && Held(done, i) && Held(done, j) && ptrs[i] != 0 ==> ptrs[i] != ptrs[j])
  }

  /** Nothing else happened: what was there at the start and is no table is as it was, and every
      block in use was there, is a table, or is held. */
  ghost predicate Accounted(c0: Blocks, node0: map<Key, nat>, c: Blocks, node: map<Key, nat>, ptrs: seq<nat>, done: seq<Action>) {
    && (forall p: nat, data {:trigger Private(c, node, p, data)} :: Private(c0, node0, p, data) ==> Private(c, node, p, data))
    && (forall a: nat {:trigger a in c} :: (a in c0 ==> a in c) && (a in c ==> a in c0 || IsTable(node, a) || HeldAt(ptrs, done, a)))
  }

  lemma NothingDone(c: Blocks, node: map<Key, nat>, pages: map<nat, Leaf>)
    ensures Holding(c, c, node, [], []) && Accounted(c, node, c, node, [], []) && PagesAfter(pages, Calls([])) == pages
  {
  }

  lemma HeldPrivate(c0: Blocks, c: Blocks, node: map<Key, nat>, ptrs: seq<nat>, done: seq<Action>, nth: nat)
    requires Holding(c0, c, node, ptrs, done) && Held(done, nth)
    ensures nth < |ptrs| == |Data(done)|
    ensures ptrs[nth] != 0 ==> Private(c, node, ptrs[nth], Data(done)[nth]) && ptrs[nth] - HEADER !in c0
    ensures ptrs[nth] == 0 || (ptrs[nth] >= HEADER && ptrs[nth] - HEADER in c)
    ensures forall k :: k in node ==> ptrs[nth] != KERNEL_BASE + node[k]
  {
  }

  lemma StartKept(c0: Blocks, node0: map<Key, nat>, c: Blocks, node: map<Key, nat>, ptrs: seq<nat>, done: seq<Action>)
    requires Accounted(c0, node0, c, node, ptrs, done)
    ensures forall a :: a in c0 ==> a in c
  {
  }

  /** Other blocks may become tables; the ones held stay as they are. */
  lemma HoldingStill(c0: Blocks, c: Blocks, node: map<Key, nat>, c': Blocks, node': map<Key, nat>, ptrs: seq<nat>, done: seq<Action>)
    requires Holding(c0, c, node, ptrs, done) && Undisturbed(c, node, c', node')
    ensures Holding(c0, c', node', ptrs, done)
  {
    hide Private, Data, IsTable, Held;
  }

  lemma AccountedStill(c0: Blocks, node0: map<Key, nat>, c: Blocks, node: map<Key, nat>, c': Blocks, node': map<Key, nat>,
                       ptrs: seq<nat>, done: seq<Action>)
    requires Accounted(c0, node0, c, node, ptrs, done) && Undisturbed(c, node, c', node')
    ensures Accounted(c0, node0, c', node', ptrs, done)
  {
    hide Private, IsTable, HeldAt;
    forall p: nat, data | Private(c0, node0, p, data)
      ensures Private(c', node', p, data)
    {
      assert Private(c, node, p, data);
    }
    forall a: nat
      ensures (a in c0 ==> a in c') && (a in c' ==> a in c0 || IsTable(node', a) || HeldAt(ptrs, done, a))
    {
      assert a in c0 ==> a in c;
      assert IsTable(node, a) ==> IsTable(node', a);
    }
  }

  lemma CallDone(c0: Blocks, node0: map<Key, nat>, c: Blocks, node: map<Key, nat>, ptrs: seq<nat>, done: seq<Action>, call: Call)
    requires Holding(c0, c, node, ptrs, done) && Accounted(c0, node0, c, node, ptrs, done)
    ensures Holding(c0, c, node, ptrs, done + [Map(call)]) && Accounted(c0, node0, c, node, ptrs, done + [Map(call)])
  {
    hide Private, Data, IsTable;
    var done' := done + [Map(call)];
    DataNext(done, Map(call));
    assert forall i: nat :: Held(done', i) <==> Held(done, i);
    assert forall a: nat :: HeldAt(ptrs, done', a) <==> HeldAt(ptrs, done, a);
  }

  lemma HoldingMore(c0: Blocks, c: Blocks, node: map<Key, nat>, ptrs: seq<nat>, done: seq<Action>, len: nat, align: nat, p: nat)
    requires Holding(c0, c, node, ptrs, done) && (forall a :: a in c0 ==> a in c)
    requires p != 0 ==> p >= HEADER && p - HEADER !in c && forall k :: k in node ==> KERNEL_BASE + node[k] != p
    ensures Holding(c0, if p == 0 then c else c[p - HEADER := Zeros(len)], node, ptrs + [p], done + [Allocate(len, align)])
  {
    hide Data, Zeros;
    var done' := done + [Allocate(len, align)];
    DataNext(done, Allocate(len, align));
    forall i: nat | i < |ptrs| && Held(done', i)
      ensures Held(done, i) && (ptrs[i] != 0 ==> Private(c, node, ptrs[i], Data(done)[i]) && ptrs[i] != p)
    {
      assert Held(done, i);
    }
  }

  lemma AccountedMore(c0: Blocks, node0: map<Key, nat>, c: Blocks, node: map<Key, nat>, ptrs: seq<nat>, done: seq<Action>,
                      len: nat, align: nat, p: nat)
    requires Holding(c0, c, node, ptrs, done) && Accounted(c0, node0, c, node, ptrs, done)
    requires p != 0 ==> p >= HEADER && p - HEADER !in c
    ensures Accounted(c0, node0, if p == 0 then c else c[p - HEADER := Zeros(len)], node, ptrs + [p], done + [Allocate(len, align)])
  {
    hide Data, Zeros, IsTable;
    var done', ptrs' := done + [Allocate(len, align)], ptrs + [p];
    var c' := if p == 0 then c else c[p - HEADER := Zeros(len)];
    DataNext(done, Allocate(len, align));
    PrivateStays(c0, node0, c, node, c');
    forall a: nat | HeldAt(ptrs, done, a) || a + HEADER == p
      ensures HeldAt(ptrs', done', a)
    {
      assert Held(done', |ptrs|) && ptrs'[|ptrs|] == p;
      if HeldAt(ptrs, done, a) {
        var i :| 0 <= i < |ptrs| && Held(done, i) && ptrs[i] == a + HEADER;
        assert Held(done', i) && ptrs'[i] == a + HEADER;
      }
    }
  }

  lemma PrivateStays(c0: Blocks, node0: map<Key, nat>, c: Blocks, node: map<Key, nat>, c': Blocks)
    requires forall p: nat, data {:trigger Private(c, node, p, data)} :: Private(c0, node0, p, data) ==> Private(c, node, p, data)
    requires forall a :: a in c0 && a in c ==> a in c' && c'[a] == c[a]
    ensures forall p: nat, data {:trigger Private(c', node, p, data)} :: Private(c0, node0, p, data) ==> Private(c', node, p, data)
  {
    forall p: nat, data | Private(c0, node0, p, data)
      ensures Private(c', node, p, data)
    {
      assert Private(c, node, p, data);
    }
  }

  lemma HoldingLess(c0: Blocks, c: Blocks, node: map<Key, nat>, ptrs: seq<nat>, done: seq<Action>, nth: nat)
    requires Holding(c0, c, node, ptrs, done) && Held(done, nth) && nth < |ptrs|
    ensures Holding(c0, if ptrs[nth] == 0 then c else c - {ptrs[nth] - HEADER}, node, ptrs, done + [Release(nth)])
  {
    hide Data;
    var done' := done + [Release(nth)];
    DataNext(done, Release(nth));
    forall i: nat | Held(done', i)
      ensures Held(done, i) && i != nth
    {
    }
  }

  lemma ReleaseKeeps(done: seq<Action>, nth: nat)
    ensures forall i: nat :: Held(done + [Release(nth)], i) <==> Held(done, i) && i != nth
  {
    hide Data;
    DataNext(done, Release(nth));
  }

  lemma AccountedLess(c0: Blocks, node0: map<Key, nat>, c: Blocks, node: map<Key, nat>, ptrs: seq<nat>, done: seq<Action>, nth: nat)
    requires Holding(c0, c, node, ptrs, done) && Accounted(c0, node0, c, node, ptrs, done) && Held(done, nth) && nth < |ptrs|
    ensures Accounted(c0, node0, if ptrs[nth] == 0 then c else c - {ptrs[nth] - HEADER}, node, ptrs, done + [Release(nth)])
  {
    hide Data, IsTable, Holding, Private, Held;
    var done' := done + [Release(nth)];
    var c' := if ptrs[nth] == 0 then c else c - {ptrs[nth] - HEADER};
    HeldPrivate(c0, c, node, ptrs, done, nth);
    ReleaseKeeps(done, nth);
    PrivateStays(c0, node0, c, node, c');
    forall a: nat | HeldAt(ptrs, done, a)
      ensures a + HEADER == ptrs[nth] || HeldAt(ptrs, done', a)
    {
      var i :| 0 <= i < |ptrs| && Held(done, i) && ptrs[i] == a + HEADER;
      assert i != nth ==> Held(done', i);
    }
  }

  lemma StoreKeeps(done: seq<Action>, nth: nat, at: nat, v: word)
    requires ProperNext(done, Store(nth, at, v))
    ensures
      var data, data' := Data(done), Data(done + [Store(nth, at, v)]);
      && Held(done, nth) && nth < |data| == |data'| && at + WORD_SIZE <= |data[nth]| && data'[nth] == SetWord(data[nth], at, v)
      && (forall i :: 0 <= i < |data| && i != nth ==> data'[i] == data[i])
    ensures forall i: nat :: Held(done + [Store(nth, at, v)], i) <==> Held(done, i)
    ensures forall i: nat :: Release(i) in done + [Store(nth, at, v)] <==> Release(i) in done
  {
    hide SetWord, Data;
    DataNext(done, Store(nth, at, v));
  }

  lemma HoldingStored(c0: Blocks, c: Blocks, node: map<Key, nat>, ptrs: seq<nat>, done: seq<Action>, nth: nat, at: nat, v: word)
    requires Holding(c0, c, node, ptrs, done) && ProperNext(done, Store(nth, at, v)) && nth < |ptrs|
    ensures Holding(c0, if ptrs[nth] == 0 then c else WrittenIn(c, ptrs[nth] - HEADER, at, v), node, ptrs, done + [Store(nth, at, v)])
  {
    hide SetWord, Data, Held;
    StoreKeeps(done, nth, at, v);
  }

  lemma AccountedStored(c0: Blocks, node0: map<Key, nat>, c: Blocks, node: map<Key, nat>, ptrs: seq<nat>, done: seq<Action>,
                        nth: nat, at: nat, v: word)
    requires Holding(c0, c, node, ptrs, done) && Accounted(c0, node0, c, node, ptrs, done)
    requires ProperNext(done, Store(nth, at, v)) && nth < |ptrs|
    ensures Accounted(c0, node0, if ptrs[nth] == 0 then c else WrittenIn(c, ptrs[nth] - HEADER, at, v), node, ptrs,
                      done + [Store(nth, at, v)])
  {
    hide SetWord, Data, IsTable, Holding, Private, Held;
    var done' := done + [Store(nth, at, v)];
    StoreKeeps(done, nth, at, v);
    HeldPrivate(c0, c, node, ptrs, done, nth);
    var c' := if ptrs[nth] == 0 then c else WrittenIn(c, ptrs[nth] - HEADER, at, v);
    PrivateStays(c0, node0, c, node, c');
    assert forall a: nat :: HeldAt(ptrs, done', a) <==> HeldAt(ptrs, done, a);
  }
}
