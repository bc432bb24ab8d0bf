/** Breakpoints as an undo log over a tracee's memory: a call saves the word at its return
    address and plants a trap in its low byte, a return stores the saved word back. */
module Breakpoints {
  import opened ByteMemory
  import opened Bits

  const TRAP: byte := 0xcc
  const LOW_BYTE_MASK: nat := 0xffff_ffff_ffff_ff00

  datatype Saved = Saved(retaddr: nat, orig: word)

  /** `origin` names the first byte of `memory`; the stack's top comes last. */
  datatype Tracee = Tracee(origin: nat, memory: seq<byte>, stack: seq<Saved>)

  datatype Event = Call(retaddr: nat) | Return

  /** (orig & ~0xff) | 0xcc */
  function Trapped(orig: word): nat {
    Or(And(orig, LOW_BYTE_MASK), TRAP)
  }

  lemma TrapIs(orig: word)
    ensures Trapped(orig) == orig - orig % 256 + 0xcc
    ensures Trapped(orig) < 0x1_0000_0000_0000_0000
  {
    hide And, Or, Pow2;
    var q, b := orig / 256, orig % 256;
    Pow2At32();
    Pow2At56();
    AndBlock(8, q, b, Pow2(56) - 1, 0);
    AndOnes(56, q);
    AndZero(b);
    OrBlock(8, q, 0, 0, TRAP);
    OrZero(q);
    OrZero(TRAP);
  }

  lemma Pow2At56()
    ensures Pow2(56) == 0x100_0000_0000_0000
  {
    hide Pow2;
    Pow2At32();
    Pow2Sum(32, 24);
  }

  const MINUS_ONE: word := 0xffff_ffff_ffff_ffff

  /** PTRACE_PEEKTEXT: the word at a, or -1 where there is no memory for one. */
  ghost function Peek(m: seq<byte>, origin: nat, a: nat): word {
    if InMemory(m, origin, a) then Word(m, a - origin) else MINUS_ONE
  }

  /** A poke where there is no memory for a word fails and changes nothing. */
  ghost function Opened(t: Tracee, a: nat): Tracee {
    var orig := Peek(t.memory, t.origin, a);
    Tracee(t.origin, Poke(t.memory, t.origin, a, Trapped(orig)), t.stack + [Saved(a, orig)])
  }

  ghost function Closed(t: Tracee): Tracee {
    if t.stack == [] then t
    else
      var top := t.stack[|t.stack| - 1];
      Tracee(t.origin, Poke(t.memory, t.origin, top.retaddr, top.orig), t.stack[..|t.stack| - 1])
  }

  ghost function Step(t: Tracee, e: Event): Tracee {
    match e
    case Call(a) => Opened(t, a)
    case Return => Closed(t)
  }

  /** The text with a trap at every return address on the stack that has a word of memory. */
  ghost function Marked(text: seq<byte>, origin: nat, stack: seq<Saved>): (m: seq<byte>)
    ensures |m| == |text|
  {
    if stack == [] then text
    else
      var m, a := Marked(text, origin, stack[..|stack| - 1]), stack[|stack| - 1].retaddr;
      if InMemory(text, origin, a) then m[a - origin := TRAP] else m
  }

  /** Some pending call returns to the byte at offset i. */
  ghost predicate Pending(text: seq<byte>, origin: nat, stack: seq<Saved>, i: nat) {
    exists s :: s in stack && s.retaddr == origin + i && InMemory(text, origin, s.retaddr)
  }

  /** A trap at exactly the return addresses on the stack, and the text elsewhere. */
  lemma {:induction false} MarkedAt(text: seq<byte>, origin: nat, stack: seq<Saved>, i: nat)
    requires i < |text|
    ensures Marked(text, origin, stack)[i] == if Pending(text, origin, stack, i) then TRAP else text[i]
    decreases stack
  {
    if stack != [] {
      var init, top := stack[..|stack| - 1], stack[|stack| - 1];
      assert forall s :: s in stack <==> s in init || s == top;
      MarkedAt(text, origin, init, i);
    }
  }

  /** Every saved word is what the text looked like with only the breakpoints below it. */
  ghost predicate Undoable(text: seq<byte>, origin: nat, stack: seq<Saved>)
    decreases stack
  {
    stack == [] ||
    var init, top := stack[..|stack| - 1], stack[|stack| - 1];
    && top.orig == Peek(Marked(text, origin, init), origin, top.retaddr)
    && Undoable(text, origin, init)
  }

  ghost predicate Good(text: seq<byte>, t: Tracee) {
    t.memory == Marked(text, t.origin, t.stack) && Undoable(text, t.origin, t.stack)
  }

  /** Planting a trap changes one byte. */
  lemma TrapByte(m: seq<byte>, origin: nat, a: nat)
    requires InMemory(m, origin, a)
    ensures Poke(m, origin, a, Trapped(Word(m, a - origin))) == m[a - origin := 0xcc]
  {
    hide Trapped, Word, SetWord;
    var i := a - origin;
    TrapIs(Word(m, i));
    LowByteStore(m, i, TRAP);
  }

  /** Storing the loaded word with another low byte changes that byte alone. */
  lemma LowByteStore(m: seq<byte>, i: nat, b: byte)
    requires i + WORD_SIZE <= |m|
    ensures Word(m, i) - Word(m, i) % 256 + b < 0x1_0000_0000_0000_0000
    ensures SetWord(m, i, Word(m, i) - Word(m, i) % 256 + b) == m[i := b]
  {
    hide LoadLE, StoreLE, Pow256;
    var m' := m[i := b];
    OtherLow(m, i, b);
    StoreLoaded(m', m, i, WORD_SIZE);
    SetWordIs(m, i, Word(m', i));
  }

  lemma OtherLow(m: seq<byte>, i: nat, b: byte)
    requires i + WORD_SIZE <= |m|
    ensures Word(m[i := b], i) == Word(m, i) - Word(m, i) % 256 + b
  {
    var m' := m[i := b];
    LoadAgrees(m, m', i + 1, WORD_SIZE - 1);
    var rest := LoadLE(m, i + 1, WORD_SIZE - 1);
    LowByte(m[i], rest);
    LowByte(b, rest);
  }

  lemma PokeNowhere(m: seq<byte>, origin: nat, a: nat, v: nat)
    requires !InMemory(m, origin, a)
    ensures Poke(m, origin, a, v) == m
  {
  }

  lemma CallKeeps(text: seq<byte>, t: Tracee, a: nat)
    requires Good(text, t)
    ensures Good(text, Opened(t, a))
  {
    hide Word, Poke, Trapped;
    if InMemory(t.memory, t.origin, a) {
      TrapByte(t.memory, t.origin, a);
    } else {
      PokeNowhere(t.memory, t.origin, a, Trapped(MINUS_ONE));
    }
    var top := Saved(a, Peek(t.memory, t.origin, a));
    assert (t.stack + [top])[..|t.stack|] == t.stack;
  }

  lemma ReturnKeeps(text: seq<byte>, t: Tracee)
    requires Good(text, t)
    ensures Good(text, Closed(t))
  {
    hide LoadLE, StoreLE, Pow256;
    if t.stack != [] {
      var init, top := t.stack[..|t.stack| - 1], t.stack[|t.stack| - 1];
      if InMemory(text, t.origin, top.retaddr) {
        var before, i := Marked(text, t.origin, init), top.retaddr - t.origin;
        StoreLoaded(before, t.memory, i, WORD_SIZE);
        SetWordIs(t.memory, i, top.orig);
      } else {
        PokeNowhere(t.memory, t.origin, top.retaddr, top.orig);
      }
    }
  }

  // ---------------------------------------------------------------- runs

  ghost function After(text: seq<byte>, origin: nat, events: seq<Event>): (t: Tracee)
    ensures |t.memory| == |text| && t.origin == origin
  {
    if events == [] then Tracee(origin, text, [])
    else
      var before := After(text, origin, events[..|events| - 1]);
      Step(before, events[|events| - 1])
  }

  /** Whatever calls and returns have happened, nested, repeated or overlapping: memory is the
      text with a trap at exactly the pending return addresses. With none pending it is the
      text. */
  lemma {:induction false} MemoryIsMarked(text: seq<byte>, origin: nat, events: seq<Event>)
    ensures
      var t := After(text, origin, events);
      Good(text, t) && (t.stack == [] ==> t.memory == text)
    decreases events
  {
    hide Marked, Peek, Poke;
    NothingMarked(text, origin);
    if events != [] {
      MemoryIsMarked(text, origin, events[..|events| - 1]);
      var before, e := After(text, origin, events[..|events| - 1]), events[|events| - 1];
      if e.Call? {
        CallKeeps(text, before, e.retaddr);
      } else {
        ReturnKeeps(text, before);
      }
    }
  }

  lemma NothingMarked(text: seq<byte>, origin: nat)
    ensures Marked(text, origin, []) == text
  {
  }

  /** The return addresses of the calls that have not returned. */
  function Callers(events: seq<Event>): seq<nat> {
    if events == [] then []
    else
      var before, e := Callers(events[..|events| - 1]), events[|events| - 1];
      if e.Call? then before + [e.retaddr] else if before == [] then [] else before[..|before| - 1]
  }

  ghost predicate Names(stack: seq<Saved>, callers: seq<nat>) {
    |stack| == |callers| && forall k :: 0 <= k < |stack| ==> stack[k].retaddr == callers[k]
  }

  lemma {:induction false} StackNames(text: seq<byte>, origin: nat, events: seq<Event>)
    ensures Names(After(text, origin, events).stack, Callers(events))
    decreases events
  {
    hide Poke, Peek, Trapped;
    if events != [] {
      StackNames(text, origin, events[..|events| - 1]);
    }
  }

  /** And the bytes, one by one: the trap 0xcc at the return addresses of the calls that have not
      returned and have a word of memory there, and the text everywhere else. */
  lemma TrapsArePending(text: seq<byte>, origin: nat, events: seq<Event>, i: nat)
    requires i < |text|
    ensures After(text, origin, events).memory[i] ==
      if origin + i in Callers(events) && i + 8 <= |text| then 0xcc else text[i]
  {
    hide After, Marked, Callers;
    var t := After(text, origin, events);
    MemoryIsMarked(text, origin, events);
    MarkedAt(text, origin, t.stack, i);
    StackNames(text, origin, events);
    NamesPending(text, origin, t.stack, Callers(events), i);
  }

  lemma NamesPending(text: seq<byte>, origin: nat, stack: seq<Saved>, callers: seq<nat>, i: nat)
    requires Names(stack, callers) && i < |text|
    ensures Pending(text, origin, stack, i) <==> origin + i in callers && i + 8 <= |text|
  {
    if origin + i in callers {
      var k :| 0 <= k < |callers| && callers[k] == origin + i;
      assert stack[k] in stack;
    }
  }

  ghost function Unwound(t: Tracee): Tracee
    decreases |t.stack|
  {
    if t.stack == [] then t else Unwound(Closed(t))
  }

  /** Returning from everything restores the text exactly. */
  lemma {:induction false} UnwindingRestores(text: seq<byte>, t: Tracee)
    requires Good(text, t)
    ensures Unwound(t).memory == text && Unwound(t).stack == []
    decreases |t.stack|
  {
    if t.stack != [] {
      ReturnKeeps(text, t);
      UnwindingRestores(text, Closed(t));
    }
  }
}
