/** The four-level page walk of the processor (Intel SDM Volume 3A, section 4.5), read from raw
    memory, and the shape of the table tree that makes single writes predictable. */
module PageWalk {
  import opened ByteMemory

  /** The physical address a linear address goes to, and what may be done there. */
  datatype Translation = Unmapped | Mapped(pa: nat, user: bool, writable: bool)

  const TABLE: nat := 0x1000
  const ENTRIES: nat := 512
  const LINEAR_LIMIT: nat := 0x1_0000_0000_0000   // 2^48

  /** The bytes one entry of a level covers; level 5 stands for the whole address space. */
  function Span(level: nat): (n: nat)
    ensures n > 0
  {
    match level
    case 1 => 0x1000
    case 2 => 0x20_0000
    case 3 => 0x4000_0000
    case 4 => 0x80_0000_0000
    case _ => LINEAR_LIMIT
  }

  function Slot(va: nat, level: nat): (i: nat)
    ensures i < ENTRIES
  {
    va / Span(level) % ENTRIES
  }

  predicate Present(e: nat) { e % 2 == 1 }
  predicate Writable(e: nat) { e / 2 % 2 == 1 }
  predicate User(e: nat) { e / 4 % 2 == 1 }
  predicate Large(e: nat) { e / 0x80 % 2 == 1 }

  /** Bits 51 to 12 of an entry. */
  function Frame(e: nat): nat {
    e / 0x1000 % 0x100_0000_0000 * 0x1000
  }

  /** The entry points to a table of the next level. */
  predicate Leads(level: nat, e: nat) {
    level > 1 && Present(e) && !(level <= 3 && Large(e))
  }

  predicate Fits(m: seq<byte>, table: nat) {
    table % TABLE == 0 && table + TABLE <= |m|
  }

  function Entry(m: seq<byte>, table: nat, i: nat): nat {
    if Fits(m, table) && i < ENTRIES then Word(m, table + 8 * i) else 0
  }

  /** What one entry does to an address, given the permissions gathered above it. */
  function Resolve(level: nat, e: nat, va: nat, user: bool, writable: bool): Translation {
    if Present(e)
    then Mapped(Frame(e) / Span(level) * Span(level) + va % Span(level), user && User(e), writable && Writable(e))
    else Unmapped
  }

  function Walk(m: seq<byte>, level: nat, table: nat, va: nat, user: bool, writable: bool): Translation
    requires 1 <= level <= 4
    decreases level
  {
    var e := Entry(m, table, Slot(va, level));
    if Leads(level, e)
    then Walk(m, level - 1, Frame(e), va, user && User(e), writable && Writable(e))
    else Resolve(level, e, va, user, writable)
  }

  function Translate(m: seq<byte>, root: nat, va: nat): Translation {
    Walk(m, 4, root, va, true, true)
  }

  // ---------------------------------------------------------------- the walk in numbers

  lemma EntryIs(m: seq<byte>, table: nat, i: nat)
    requires table % 0x1000 == 0 && table + 0x1000 <= |m| && i < 512
    ensures Entry(m, table, i) == Word(m, table + 8 * i)
  {
  }

  /** The four levels written out: nine address bits each, bit 0 of an entry for present, bit 1 for
      writable, bit 2 for user, bit 7 for a large page at level 3 or 2, bits 51 to 12 (FrameIs) for
      the frame; a permission has to be given at every level. */
  function FourLevels(m: seq<byte>, root: nat, va: nat): Translation {
    var e := Entry(m, root, va / 0x80_0000_0000 % 512);
    if e % 2 == 0 then Unmapped else ThreeLevels(m, Frame(e), va, e / 4 % 2 == 1, e / 2 % 2 == 1)
  }

  function ThreeLevels(m: seq<byte>, table: nat, va: nat, user: bool, writable: bool): Translation {
    var e := Entry(m, table, va / 0x4000_0000 % 512);
    var u, w := user && e / 4 % 2 == 1, writable && e / 2 % 2 == 1;
    if e % 2 == 0 then Unmapped
    else if e / 0x80 % 2 == 1 then Mapped(Frame(e) - Frame(e) % 0x4000_0000 + va % 0x4000_0000, u, w)
    else TwoLevels(m, Frame(e), va, u, w)
  }

  function TwoLevels(m: seq<byte>, table: nat, va: nat, user: bool, writable: bool): Translation {
    var e := Entry(m, table, va / 0x20_0000 % 512);
    var u, w := user && e / 4 % 2 == 1, writable && e / 2 % 2 == 1;
    if e % 2 == 0 then Unmapped
    else if e / 0x80 % 2 == 1 then Mapped(Frame(e) - Frame(e) % 0x20_0000 + va % 0x20_0000, u, w)
    else LastLevel(m, Frame(e), va, u, w)
  }

  function LastLevel(m: seq<byte>, table: nat, va: nat, user: bool, writable: bool): Translation {
    var e := Entry(m, table, va / 0x1000 % 512);
    if e % 2 == 0 then Unmapped
    else Mapped(Frame(e) + va % 0x1000, user && e / 4 % 2 == 1, writable && e / 2 % 2 == 1)
  }

  lemma TranslateIs(m: seq<byte>, root: nat, va: nat)
    ensures Translate(m, root, va) == FourLevels(m, root, va)
  {
    hide Entry, Frame, Slot;
    SlotsAre(va);
    var e := Entry(m, root, Slot(va, 4));
    Walk3(m, Frame(e), va, User(e), Writable(e));
  }

  lemma Walk3(m: seq<byte>, table: nat, va: nat, u: bool, w: bool)
    ensures Walk(m, 3, table, va, u, w) == ThreeLevels(m, table, va, u, w)
  {
    hide Entry, Frame, Slot;
    SlotsAre(va);
    var e := Entry(m, table, Slot(va, 3));
    Walk2(m, Frame(e), va, u && User(e), w && Writable(e));
  }

  lemma Walk2(m: seq<byte>, table: nat, va: nat, u: bool, w: bool)
    ensures Walk(m, 2, table, va, u, w) == TwoLevels(m, table, va, u, w)
  {
    hide Entry, Frame, Slot;
    SlotsAre(va);
    var e := Entry(m, table, Slot(va, 2));
    Walk1(m, Frame(e), va, u && User(e), w && Writable(e));
  }

  lemma Walk1(m: seq<byte>, table: nat, va: nat, u: bool, w: bool)
    ensures Walk(m, 1, table, va, u, w) == LastLevel(m, table, va, u, w)
  {
    hide Entry, Slot;
    SlotsAre(va);
    WholePages(Entry(m, table, Slot(va, 1)));
  }

  lemma WholePages(e: nat)
    ensures Frame(e) / 0x1000 * 0x1000 == Frame(e)
  {
  }

  lemma FrameIs(e: nat)
    ensures Frame(e) == e / 0x1000 % 0x100_0000_0000 * 0x1000
  {
  }

  lemma SlotsAre(va: nat)
    ensures Slot(va, 4) == va / 0x80_0000_0000 % 512 && Slot(va, 3) == va / 0x4000_0000 % 512
    ensures Slot(va, 2) == va / 0x20_0000 % 512 && Slot(va, 1) == va / 0x1000 % 512
  {
  }

  // ---------------------------------------------------------------- the table tree

  /** A table is known by its level and the address bits that lead to it. */
  datatype Key = Key(level: nat, prefix: nat)

  const ROOT: Key := Key(4, 0)

  function Parent(k: Key): Key {
    Key(k.level + 1, k.prefix / ENTRIES)
  }

  function Child(k: Key, i: nat): Key {
    Key(if k.level > 0 then k.level - 1 else 0, k.prefix * ENTRIES + i)
  }

  /** The walk of va reads entry i of table k. */
  predicate OnPath(k: Key, i: nat, va: nat) {
    k.prefix == va / Span(k.level + 1) && i == Slot(va, k.level)
  }

  ghost predicate NodeOk(m: seq<byte>, node: map<Key, nat>, k: Key)
    requires k in node
  {
    && 1 <= k.level <= 4
    && Fits(m, node[k])
    && (k.level < 4 ==> Parent(k) in node)
    && (k.level == 4 ==> k == ROOT)
  }

  ghost predicate SlotOk(m: seq<byte>, node: map<Key, nat>, k: Key, i: nat)
    requires k in node
  {
    var e := Entry(m, node[k], i);
    && (k.level > 1 ==> (Child(k, i) in node <==> Leads(k.level, e)))
    && (k.level > 1 && Child(k, i) in node ==> node[Child(k, i)] == Frame(e))
  }

  /** The tables of the tree: every link is accounted for, and no table is used twice. */
  ghost predicate Tree(m: seq<byte>, node: map<Key, nat>) {
    && ROOT in node
    && (forall k {:trigger NodeOk(m, node, k)} :: k in node ==> NodeOk(m, node, k))
    && (forall k, i: nat {:trigger SlotOk(m, node, k, i)} :: k in node && i < ENTRIES ==> SlotOk(m, node, k, i))
    && (forall j, k :: j in node && k in node && j != k ==> node[j] != node[k])
  }

  // ---------------------------------------------------------------- address arithmetic

  lemma SpanUp(va: nat, level: nat)
    requires 1 <= level <= 4
    ensures va / Span(level) / ENTRIES == va / Span(level + 1)
    ensures va / Span(level + 1) * ENTRIES + Slot(va, level) == va / Span(level)
  {
  }

  /** The child on the path of va is the one its own prefix names. */
  lemma PathDown(k: Key, va: nat)
    requires 2 <= k.level <= 4 && k.prefix == va / Span(k.level + 1)
    ensures Child(k, Slot(va, k.level)) == Key(k.level - 1, va / Span(k.level))
  {
    SpanUp(va, k.level);
  }

  lemma PathUp(k: Key, va: nat)
    requires 1 <= k.level <= 3 && k.prefix == va / Span(k.level + 1)
    ensures Parent(k).prefix == va / Span(k.level + 2)
    ensures Child(Parent(k), Slot(va, k.level + 1)) == k
  {
    SpanUp(va, k.level + 1);
  }

  // ---------------------------------------------------------------- walks through the tree

  /** Tables that read the same along the path of va translate it the same. */
  lemma {:induction false} WalkAgrees(m: seq<byte>, m': seq<byte>, node: map<Key, nat>, k: Key, va: nat, u: bool, w: bool)
    requires Tree(m, node) && k in node && k.prefix == va / Span(k.level + 1)
    requires 1 <= k.level <= 4
    requires forall j, i: nat :: j in node && OnPath(j, i, va) ==> Entry(m', node[j], i) == Entry(m, node[j], i)
    ensures Walk(m', k.level, node[k], va, u, w) == Walk(m, k.level, node[k], va, u, w)
    decreases k.level
  {
    hide Entry, Span, Resolve, Frame, User, Writable, NodeOk, Leads, Slot;
    var i := Slot(va, k.level);
    var e := Entry(m, node[k], i);
    assert OnPath(k, i, va);
    if Leads(k.level, e) {
      LeadsBelow(k.level, e);
      PathDown(k, va);
      assert SlotOk(m, node, k, i);
      WalkAgrees(m, m', node, Child(k, i), va, u && User(e), w && Writable(e));
    }
  }

  lemma LeadsBelow(level: nat, e: nat)
    requires Leads(level, e)
    ensures level > 1
  {
  }

  /** Every link on the path to table k lets user code through, and writes. */
  ghost predicate Open(m: seq<byte>, node: map<Key, nat>, k: Key, va: nat) {
    forall j, i: nat :: j in node && j.level > k.level && OnPath(j, i, va) ==>
      User(Entry(m, node[j], i)) && Writable(Entry(m, node[j], i))
  }

  /** The walk of va reaches every table that its address bits name. */
  lemma {:induction false} WalkReaches(m: seq<byte>, node: map<Key, nat>, k: Key, va: nat) returns (u: bool, w: bool)
    requires Tree(m, node) && k in node && k.prefix == va / Span(k.level + 1)
    requires 1 <= k.level <= 4 && va < LINEAR_LIMIT
    ensures Translate(m, node[ROOT], va) == Walk(m, k.level, node[k], va, u, w)
    ensures Open(m, node, k, va) ==> u && w
    decreases 4 - k.level
  {
    assert NodeOk(m, node, k);
    if k.level == 4 {
      return true, true;
    }
    var p := Parent(k);
    PathUp(k, va);
    u, w := WalkReaches(m, node, p, va);
    var i := Slot(va, p.level);
    assert SlotOk(m, node, p, i);
    assert OnPath(p, i, va);
    var e := Entry(m, node[p], i);
    u, w := u && User(e), w && Writable(e);
  }

  // ---------------------------------------------------------------- one entry written

  /** Memory m' is m with entry i of table `table` set to e. */
  ghost predicate EntrySet(m: seq<byte>, m': seq<byte>, node: map<Key, nat>, k: Key, i: nat, e: nat)
    requires k in node
  {
    && |m'| == |m|
    && Entry(m', node[k], i) == e
    && forall j, x: nat :: j in node && !(j == k && x == i) ==> Entry(m', node[j], x) == Entry(m, node[j], x)
  }

  lemma WordInTable(m: seq<byte>, m': seq<byte>, t: nat, a: nat, e: word, i: nat, x: nat)
    requires Fits(m, t) && Fits(m, a) && i < ENTRIES
    requires m' == SetWord(m, a + 8 * i, e)
    ensures !(t == a && x == i) ==> Entry(m', t, x) == Entry(m, t, x)
    ensures Entry(m', a, i) == e
  {
    hide Word, SetWord;
    if x < ENTRIES && t != a {
      assert t + TABLE <= a || a + TABLE <= t;
    }
  }

  /** Storing one entry changes that entry of that table, and no other entry of the tree. */
  lemma StoreSetsEntry(m: seq<byte>, m': seq<byte>, node: map<Key, nat>, k: Key, i: nat, e: word)
    requires Tree(m, node) && k in node && i < ENTRIES
    requires node[k] + 8 * i + WORD_SIZE <= |m| && m' == SetWord(m, node[k] + 8 * i, e)
    ensures EntrySet(m, m', node, k, i, e)
  {
    hide Word, SetWord, Entry, SlotOk;
    assert NodeOk(m, node, k);
    forall j, x: nat | j in node && !(j == k && x == i)
      ensures Entry(m', node[j], x) == Entry(m, node[j], x)
    {
      assert NodeOk(m, node, j);
      WordInTable(m, m', node[j], node[k], e, i, x);
    }
    WordInTable(m, m', node[k], node[k], e, i, i);
  }

  lemma OtherWalks(m: seq<byte>, m': seq<byte>, node: map<Key, nat>, k: Key, i: nat, e: nat, va: nat)
    requires Tree(m, node) && k in node && EntrySet(m, m', node, k, i, e)
    requires va < LINEAR_LIMIT && !OnPath(k, i, va)
    ensures Translate(m', node[ROOT], va) == Translate(m, node[ROOT], va)
  {
    hide Entry, SlotOk, NodeOk;
    assert va / Span(5) == 0;
    WalkAgrees(m, m', node, ROOT, va, true, true);
  }

  /** Writing a leaf entry keeps the tree. */
  lemma LeafKeepsTree(m: seq<byte>, m': seq<byte>, node: map<Key, nat>, k: Key, i: nat, e: nat)
    requires Tree(m, node) && k in node && k.level == 1 && EntrySet(m, m', node, k, i, e)
    ensures Tree(m', node)
  {
    hide Entry, Frame, Leads, Span;
    forall j | j in node
      ensures NodeOk(m', node, j)
    {
      assert NodeOk(m, node, j);
    }
    forall j, x: nat | j in node && x < ENTRIES
      ensures SlotOk(m', node, j, x)
    {
      assert SlotOk(m, node, j, x);
    }
  }

  /** The page of va is decided by one leaf entry, once its page table exists. */
  lemma LeafDecides(m: seq<byte>, node: map<Key, nat>, k: Key, va: nat)
    requires Tree(m, node) && k in node && k.level == 1 && k.prefix == va / Span(2) && va < LINEAR_LIMIT
    requires Open(m, node, k, va)
    ensures Translate(m, node[ROOT], va) == Resolve(1, Entry(m, node[k], Slot(va, 1)), va, true, true)
  {
    hide Entry, Frame, Span, Resolve, SlotOk, NodeOk;
    var u, w := WalkReaches(m, node, k, va);
    NoLeadsBelowTwo(Entry(m, node[k], Slot(va, 1)));
  }

  lemma NoLeadsBelowTwo(e: nat)
    ensures !Leads(1, e)
  {
  }

  // ---------------------------------------------------------------- one table added

  /** An all-zero page outside the tree, linked where nothing was, translates nothing: no walk
      changes, and the tree is one table larger. */
  lemma LinkEmptyTable(m: seq<byte>, m': seq<byte>, node: map<Key, nat>, k: Key, i: nat, e: nat, t: nat)
    requires Tree(m, node) && k in node && k.level > 1 && i < ENTRIES
    requires !Present(Entry(m, node[k], i)) && Leads(k.level, e) && Frame(e) == t
    requires EntrySet(m, m', node, k, i, e)
    requires Fits(m', t) && (forall x: nat :: Entry(m', t, x) == 0)
    requires forall j :: j in node ==> node[j] != t
    ensures Child(k, i) !in node
    ensures Tree(m', node[Child(k, i) := t])
    ensures forall va: nat :: va < LINEAR_LIMIT ==> Translate(m', node[ROOT], va) == Translate(m, node[ROOT], va)
  {
    hide Entry, Frame, Span, Resolve, OnPath, Translate;
    assert SlotOk(m, node, k, i);
    assert !Leads(k.level, Entry(m, node[k], i)) by { NotPresentNoLeads(k.level, Entry(m, node[k], i)); }
    LinkKeepsTree(m, m', node, k, i, e, t);
    forall va: nat | va < LINEAR_LIMIT
      ensures Translate(m', node[ROOT], va) == Translate(m, node[ROOT], va)
    {
      if OnPath(k, i, va) {
        LinkedWalk(m, m', node, k, i, e, t, va);
      } else {
        OtherWalks(m, m', node, k, i, e, va);
      }
    }
  }

  lemma NotPresentNoLeads(level: nat, e: nat)
    requires !Present(e)
    ensures !Leads(level, e)
  {
  }

  lemma LinkKeepsTree(m: seq<byte>, m': seq<byte>, node: map<Key, nat>, k: Key, i: nat, e: nat, t: nat)
    requires Tree(m, node) && k in node && k.level > 1 && i < ENTRIES && Child(k, i) !in node
    requires Leads(k.level, e) && Frame(e) == t
    requires EntrySet(m, m', node, k, i, e)
    requires Fits(m', t) && (forall x: nat :: Entry(m', t, x) == 0)
    requires forall j :: j in node ==> node[j] != t
    ensures Tree(m', node[Child(k, i) := t])
  {
    hide Entry, Frame, Span, Leads;
    var c := Child(k, i);
    var node' := node[c := t];
    assert NodeOk(m, node, k);
    forall j | j in node'
      ensures NodeOk(m', node', j)
    {
      if j == c {
        assert Parent(c) == k;
      } else {
        assert NodeOk(m, node, j);
      }
    }
    forall j, x: nat | j in node' && x < ENTRIES
      ensures SlotOk(m', node', j, x)
    {
      if j == c {
        ChildlessTable(m, node, c, x);
        NotPresentNoLeads(c.level, 0);
      } else {
        assert SlotOk(m, node, j, x);
        assert NodeOk(m, node, j);
        if Child(j, x) == c {
          ChildInjective(j, x, k, i);
        }
      }
    }
  }

  lemma ChildInjective(j: Key, x: nat, k: Key, i: nat)
    requires j.level > 0 && k.level > 0 && x < ENTRIES && i < ENTRIES
    requires Child(j, x) == Child(k, i)
    ensures j == k && x == i
  {
  }

  lemma ChildlessTable(m: seq<byte>, node: map<Key, nat>, c: Key, x: nat)
    requires Tree(m, node) && c !in node && x < ENTRIES && c.level < 4
    ensures c.level > 1 ==> Child(c, x) !in node
  {
    hide Entry, SlotOk, Span;
    if c.level > 1 {
      assert Parent(Child(c, x)) == c;
      assert Child(c, x) in node ==> NodeOk(m, node, Child(c, x));
    }
  }

  /** Before the link the walk stops at the absent entry, after it at the empty table. */
  lemma LinkedWalk(m: seq<byte>, m': seq<byte>, node: map<Key, nat>, k: Key, i: nat, e: nat, t: nat, va: nat)
    requires Tree(m, node) && k in node && k.level > 1 && i < ENTRIES
    requires !Present(Entry(m, node[k], i))
    requires Tree(m', node[Child(k, i) := t]) && Child(k, i) !in node
    requires forall x: nat :: Entry(m', t, x) == 0
    requires va < LINEAR_LIMIT && OnPath(k, i, va)
    ensures Translate(m, node[ROOT], va) == Unmapped
    ensures Translate(m', node[ROOT], va) == Unmapped
  {
    hide Entry, Frame, Span, Translate, SlotOk, Tree;
    var c := Child(k, i);
    var node' := node[c := t];
    NodeLevel(m, node, k);
    PathDown(k, va);
    var u, w := WalkReaches(m, node, k, va);
    NotPresentNoLeads(k.level, Entry(m, node[k], i));
    var u', w' := WalkReaches(m', node', c, va);
    NotPresentNoLeads(c.level, 0);
    RootStays(m, node, k, i, t);
  }

  lemma NodeLevel(m: seq<byte>, node: map<Key, nat>, k: Key)
    requires Tree(m, node) && k in node
    ensures 1 <= k.level <= 4 && Fits(m, node[k])
    ensures k.level == 4 ==> k == ROOT
  {
    assert NodeOk(m, node, k);
  }

  lemma RootStays(m: seq<byte>, node: map<Key, nat>, k: Key, i: nat, t: nat)
    requires Tree(m, node) && k in node
    ensures ROOT in node && node[Child(k, i) := t][ROOT] == node[ROOT]
  {
    assert NodeOk(m, node, k);
  }
}
