/** The tables the hypervisor and the kernel set up before the first user page is mapped. */
module Boot {
  import opened ByteMemory
  import opened PageWalk
  import opened UserPaging

  const PS_LIMIT: nat := 0x20_0000
  const MEM_SIZE: nat := PS_LIMIT * 2
  const KERNEL_STACK_SIZE: nat := 0x4000
  const PAGE_TABLE_SIZE: nat := 0x5000
  const MAX_KERNEL_SIZE: nat := PS_LIMIT - PAGE_TABLE_SIZE - KERNEL_STACK_SIZE

  const PML4: nat := MAX_KERNEL_SIZE
  const PDP: nat := PML4 + 0x1000
  const PD: nat := PDP + 0x1000
  const KERNEL_PDP: nat := PML4 + 0x3000
  const KERNEL_PD: nat := KERNEL_PDP + 0x1000

  /** The page-table area is still all zero, as a fresh anonymous mapping is. */
  ghost predicate Blank(m: seq<byte>) {
    && |m| == MEM_SIZE
    && forall t, i: nat :: t in {PML4, PDP, PD, KERNEL_PDP, KERNEL_PD} ==> Entry(m, t, i) == 0
  }

  /** After setup_paging and init_pagetable: entry by entry. */
  ghost predicate Booted(m: seq<byte>) {
    && |m| == MEM_SIZE
    && (forall i: nat {:trigger Entry(m, PML4, i)} :: Entry(m, PML4, i) ==
          if i == 0 then PRESENT + RW + USER + PDP else if i == 1 then PRESENT + RW + KERNEL_PDP else 0)
    && (forall i: nat {:trigger Entry(m, PDP, i)} :: Entry(m, PDP, i) == if i == 0 then PRESENT + RW + USER + PD else 0)
    && (forall i: nat {:trigger Entry(m, PD, i)} :: Entry(m, PD, i) == if i == 0 then PRESENT + RW + PS else 0)
    && (forall i: nat {:trigger Entry(m, KERNEL_PDP, i)} :: Entry(m, KERNEL_PDP, i) == if i == 0 then PRESENT + RW + KERNEL_PD else 0)
    && (forall i: nat {:trigger Entry(m, KERNEL_PD, i)} :: i < ENTRIES ==>
          Entry(m, KERNEL_PD, i) == PRESENT + RW + PS + i * LARGE_PAGE)
  }

  /** *table[i] = e, for one of the tables of the boot area. */
  method Put(ram: Ram, t: nat, i: nat, e: word)
    requires Fits(ram.bytes, t) && i < ENTRIES && ram.origin == KERNEL_BASE
    modifies ram
    ensures |ram.bytes| == |old(ram.bytes)|
    ensures Entry(ram.bytes, t, i) == e
    ensures forall t', x: nat :: Fits(ram.bytes, t') && !(t' == t && x == i) ==>
      Entry(ram.bytes, t', x) == Entry(old(ram.bytes), t', x)
  {
    hide Entry, Word, SetWord;
    ghost var m := ram.bytes;
    ram.StoreWord(KERNEL_BASE + t + 8 * i, e);
    assert ram.bytes == SetWord(m, t + 8 * i, e);
    WordInTable(m, ram.bytes, t, t, e, i, i);
    forall t', x: nat | Fits(ram.bytes, t') && !(t' == t && x == i)
      ensures Entry(ram.bytes, t', x) == Entry(m, t', x)
    {
      WordInTable(m, ram.bytes, t', t, e, i, x);
    }
  }

  /** hypervisor.c's setup_paging: the boot page, identity-mapped and closed to user code. */
  method SetupPaging(ram: Ram)
    requires Blank(ram.bytes) && ram.origin == KERNEL_BASE
    modifies ram
    ensures |ram.bytes| == MEM_SIZE
    ensures forall t, i: nat :: t in {PML4, PDP, PD, KERNEL_PDP, KERNEL_PD} ==>
      Entry(ram.bytes, t, i) ==
        if i != 0 then 0
        else if t == PML4 then PRESENT + RW + USER + PDP
        else if t == PDP then PRESENT + RW + USER + PD
        else if t == PD then PRESENT + RW + PS
        else 0
    ensures Word(ram.bytes, 0x1f_7000) == 0x1f_8007 && Word(ram.bytes, 0x1f_8000) == 0x1f_9007 && Word(ram.bytes, 0x1f_9000) == 0x83
  {
    hide Entry, Word;
    Put(ram, PML4, 0, PRESENT + RW + USER + PDP);
    Put(ram, PDP, 0, PRESENT + RW + USER + PD);
    Put(ram, PD, 0, PRESENT + RW + PS);
    EntryIs(ram.bytes, 0x1f_7000, 0);
    EntryIs(ram.bytes, 0x1f_8000, 0);
    EntryIs(ram.bytes, 0x1f_9000, 0);
  }

  /** translate.c's init_pagetable: the kernel window on the first GiB. */
  method InitPagetable(ram: Ram)
    requires |ram.bytes| == MEM_SIZE && ram.origin == KERNEL_BASE
    requires forall t, i: nat :: t in {PML4, PDP, PD, KERNEL_PDP, KERNEL_PD} ==>
      Entry(ram.bytes, t, i) ==
        if i != 0 then 0
        else if t == PML4 then PRESENT + RW + USER + PDP
        else if t == PDP then PRESENT + RW + USER + PD
        else if t == PD then PRESENT + RW + PS
        else 0
    modifies ram
    ensures Booted(ram.bytes)
    ensures Word(ram.bytes, 0x1f_7008) == 0x1f_a003 && Word(ram.bytes, 0x1f_a000) == 0x1f_b003
    ensures forall i: nat :: i < 512 ==> Word(ram.bytes, 0x1f_b000 + 8 * i) == i * 0x20_0000 + 0x83
  {
    hide Entry, Word;
    Put(ram, PML4, 1, PRESENT + RW + KERNEL_PDP);
    Put(ram, KERNEL_PDP, 0, PRESENT + RW + KERNEL_PD);
    ghost var m := ram.bytes;
    for i := 0 to ENTRIES
      invariant |ram.bytes| == MEM_SIZE
      invariant forall t, x: nat :: t in {PML4, PDP, PD, KERNEL_PDP} ==> Entry(ram.bytes, t, x) == Entry(m, t, x)
      invariant forall x: nat :: x < i ==> Entry(ram.bytes, KERNEL_PD, x) == PRESENT + RW + PS + x * LARGE_PAGE
    {
      Put(ram, KERNEL_PD, i, PRESENT + RW + PS + i * LARGE_PAGE);
    }
    EntryIs(ram.bytes, 0x1f_7000, 1);
    EntryIs(ram.bytes, 0x1f_a000, 0);
    forall i: nat | i < 512
      ensures Word(ram.bytes, 0x1f_b000 + 8 * i) == i * 0x20_0000 + 0x83
    {
      EntryIs(ram.bytes, 0x1f_b000, i);
    }
  }

  // ---------------------------------------------------------------- what that translates

  ghost function BootNode(): map<Key, nat> {
    map[ROOT := PML4, Key(3, 0) := PDP, Key(2, 0) := PD, Key(3, 1) := KERNEL_PDP, Key(2, 512) := KERNEL_PD]
  }

  /** A small frame plus the present bit and the writable, user and page-size bits w, u, p. */
  lemma EntryBits(q: nat, w: nat, u: nat, p: nat)
    requires q < 0x4_0000 && w < 2 && u < 2 && p < 2
    ensures
      var e := 0x1000 * q + 0x80 * p + 4 * u + 2 * w + 1;
      Frame(e) == 0x1000 * q && e % 2 == 1 && e / 2 % 2 == w && e / 4 % 2 == u && e / 0x80 % 2 == p
  {
    var e := 0x1000 * q + 0x80 * p + 4 * u + 2 * w + 1;
    Halves(e, 0x800 * q + 0x40 * p + 2 * u + w, 1);
    Quarters(e, 0x400 * q + 0x20 * p + u, w, 1);
    Halves(0x400 * q + 0x20 * p + u, 0x200 * q + 0x10 * p, u);
    assert e / 0x80 == 0x20 * q + p;
    Halves(0x20 * q + p, 0x10 * q, p);
    assert e / 0x1000 == q;
  }

  lemma BootEntries(i: nat)
    requires i < ENTRIES
    ensures !Present(0) && !Leads(4, 0) && !Leads(3, 0) && !Leads(2, 0)
    ensures var e := PRESENT + RW + USER + PDP; Leads(4, e) && Frame(e) == PDP && User(e) && Writable(e)
    ensures var e := PRESENT + RW + USER + PD; Leads(3, e) && Frame(e) == PD && User(e) && Writable(e)
    ensures var e := PRESENT + RW + KERNEL_PDP; Leads(4, e) && Frame(e) == KERNEL_PDP && !User(e) && Writable(e)
    ensures var e := PRESENT + RW + KERNEL_PD; Leads(3, e) && Frame(e) == KERNEL_PD && !User(e) && Writable(e)
    ensures var e := PRESENT + RW + PS + i * LARGE_PAGE;
      Present(e) && !Leads(2, e) && Frame(e) == i * LARGE_PAGE && !User(e) && Writable(e)
    ensures PRESENT + RW + PS == PRESENT + RW + PS + 0 * LARGE_PAGE
  {
    EntryBits(0x200 * i, 1, 0, 1);
    EntryBits(PDP / 0x1000, 1, 1, 0);
    EntryBits(PD / 0x1000, 1, 1, 0);
    EntryBits(KERNEL_PDP / 0x1000, 1, 0, 0);
    EntryBits(KERNEL_PD / 0x1000, 1, 0, 0);
  }

  lemma BootTree(m: seq<byte>)
    requires Booted(m)
    ensures Tree(m, BootNode()) && Flags(m, BootNode())
  {
    hide Booted, SlotOk, FlagOk, NodeOk, BootNode;
    var node := BootNode();
    BootNodes(m, node);
    forall k, i: nat | k in node && i < ENTRIES
      ensures SlotOk(m, node, k, i) && FlagOk(m, node, k, i)
    {
      BootSlot(m, node, k, i);
    }
  }

  lemma BootNodes(m: seq<byte>, node: map<Key, nat>)
    requires Booted(m) && node == BootNode()
    ensures ROOT in node
    ensures forall k {:trigger NodeOk(m, node, k)} :: k in node ==> NodeOk(m, node, k)
    ensures forall j, k :: j in node && k in node && j != k ==> node[j] != node[k]
  {
    hide Entry;
  }

  lemma BootSlot(m: seq<byte>, node: map<Key, nat>, k: Key, i: nat)
    requires Booted(m) && node == BootNode() && k in node && i < ENTRIES
    ensures SlotOk(m, node, k, i) && FlagOk(m, node, k, i)
  {
    hide Entry, Frame, Leads, User, Writable, Present, Large;
    BootEntries(i);
    BootEntries(0);
    if k == ROOT {
    } else if k == Key(3, 0) {
    } else if k == Key(3, 1) {
    } else if k == Key(2, 0) {
    } else {
    }
  }

  lemma WalkStep(m: seq<byte>, level: nat, table: nat, va: nat, u: bool, w: bool, e: nat)
    requires 1 <= level <= 4 && Entry(m, table, Slot(va, level)) == e
    ensures Walk(m, level, table, va, u, w) ==
      if Leads(level, e) then Walk(m, level - 1, Frame(e), va, u && User(e), w && Writable(e))
      else Resolve(level, e, va, u, w)
  {
  }

  lemma WindowSlots(x: nat)
    requires x < KERNEL_WINDOW
    ensures Slot(KERNEL_BASE + x, 4) == 1 && Slot(KERNEL_BASE + x, 3) == 0
    ensures Slot(KERNEL_BASE + x, 2) == x / LARGE_PAGE && x / LARGE_PAGE < ENTRIES
    ensures (KERNEL_BASE + x) % LARGE_PAGE == x % LARGE_PAGE
  {
    assert (KERNEL_BASE + x) / 0x80_0000_0000 == 1;
    assert (KERNEL_BASE + x) / 0x4000_0000 == 0x200;
    assert (KERNEL_BASE + x) / LARGE_PAGE == 0x4_0000 + x / LARGE_PAGE;
  }

  /** The kernel window: KERNEL_BASE + x goes to x, for the kernel only. */
  lemma WindowWalk(m: seq<byte>, x: nat)
    requires Booted(m) && x < KERNEL_WINDOW
    ensures Translate(m, PML4, KERNEL_BASE + x) == Mapped(x, false, true)
  {
    hide Entry, Frame, Leads, User, Writable, Present, Slot, Walk;
    var va, i := KERNEL_BASE + x, x / LARGE_PAGE;
    WindowSlots(x);
    BootEntries(i);
    WalkStep(m, 4, PML4, va, true, true, PRESENT + RW + KERNEL_PDP);
    WalkStep(m, 3, KERNEL_PDP, va, false, true, PRESENT + RW + KERNEL_PD);
    WalkStep(m, 2, KERNEL_PD, va, false, true, PRESENT + RW + PS + i * LARGE_PAGE);
  }

  /** The boot page: the first 2 MiB go to themselves, for the kernel only. */
  lemma BootPageWalk(m: seq<byte>, x: nat)
    requires Booted(m) && x < LARGE_PAGE
    ensures Translate(m, PML4, x) == Mapped(x, false, true)
  {
    hide Entry, Frame, Leads, User, Writable, Present, Walk;
    BootEntries(0);
    WalkStep(m, 4, PML4, x, true, true, PRESENT + RW + USER + PDP);
    WalkStep(m, 3, PDP, x, true, true, PRESENT + RW + USER + PD);
    WalkStep(m, 2, PD, x, true, true, PRESENT + RW + PS);
  }

  lemma UserSlots(va: nat)
    requires UserRangeOk(va)
    ensures Slot(va, 4) != 1
    ensures Slot(va, 4) == 0 && Slot(va, 3) == 0 ==> Slot(va, 2) != 0
  {
    SpanUp(va, 2);
    SpanUp(va, 3);
    SpanUp(va, 4);
  }

  /** No user address is mapped yet. */
  lemma UserWalk(m: seq<byte>, va: nat)
    requires Booted(m) && UserRangeOk(va)
    ensures Translate(m, PML4, va) == Unmapped
  {
    hide Entry, Frame, Leads, User, Writable, Present, Walk, Slot, UserRangeOk;
    UserSlots(va);
    BootEntries(0);
    if Slot(va, 4) == 0 {
      WalkStep(m, 4, PML4, va, true, true, PRESENT + RW + USER + PDP);
      if Slot(va, 3) == 0 {
        WalkStep(m, 3, PDP, va, true, true, PRESENT + RW + USER + PD);
        WalkStep(m, 2, PD, va, true, true, 0);
      } else {
        WalkStep(m, 3, PDP, va, true, true, 0);
      }
    } else {
      WalkStep(m, 4, PML4, va, true, true, 0);
    }
  }

  lemma BootMaps(m: seq<byte>)
    requires Booted(m)
    ensures KernelMapped(m, PML4) && Refines(m, PML4, map[])
  {
    hide Booted, Translate, UserRangeOk;
    forall va: nat | KERNEL_BASE <= va < KERNEL_BASE + KERNEL_WINDOW
      ensures Translate(m, PML4, va) == Mapped(va - KERNEL_BASE, false, true)
    {
      WindowWalk(m, va - KERNEL_BASE);
    }
    forall x: nat | x < LARGE_PAGE
      ensures Translate(m, PML4, x) == Mapped(x, false, true)
    {
      BootPageWalk(m, x);
    }
    forall va: nat | UserRangeOk(va)
      ensures Translate(m, PML4, va) == Lookup(map[], va)
    {
      UserWalk(m, va);
    }
  }
}
