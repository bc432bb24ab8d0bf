/** ftrace's call stack: an array of call records whose breakpoints live in the tracee. */
module CallStack {
  import opened ByteMemory
  import opened Breakpoints

  const CALLSTACK_DEPTH: nat := 0xf4240
  const EMPTY: nat := 0xffff_ffff

  datatype Breakpoint = Breakpoint(vaddr: nat, origCode: word)
  datatype CallData = CallData(symname: string, text: string, vaddr: nat, retaddr: nat, breakpoint: Breakpoint)
  datatype Popped = Null | Entry(data: CallData)

  class Stack {
    const calldata: array<CallData>
    /** Index of the top entry, an unsigned int that starts at -1. */
    var depth: nat
    /** The tracee, reached by ptrace. */
    const tracee: Ram

    ghost predicate Shaped()
      reads this
    {
      calldata.Length == CALLSTACK_DEPTH && (depth == EMPTY || depth < CALLSTACK_DEPTH)
    }

    ghost function Size(): nat
      reads this
    {
      if depth == EMPTY then 0 else depth + 1
    }

    ghost function View(): Tracee
      requires Shaped()
      reads this, calldata, tracee
    {
      Tracee(tracee.origin, tracee.bytes, Entries(calldata[..Size()]))
    }

    ghost predicate Valid(text: seq<byte>)
      reads this, calldata, tracee
    {
      Shaped() && Good(text, View())
    }

    constructor (tracee: Ram)
      ensures Valid(tracee.bytes) && this.tracee == tracee && fresh(calldata) && calldata.Length == 1000000
      ensures View() == Tracee(tracee.origin, tracee.bytes, [])
    {
      var nothing := CallData("", "", 0, 0, Breakpoint(0, 0));
      calldata := new CallData[CALLSTACK_DEPTH](_ => nothing);
      depth := EMPTY;
      this.tracee := tracee;
    }

    method PeekText(a: nat) returns (v: word)
      ensures v == Peek(tracee.bytes, tracee.origin, a)
      ensures !InMemory(tracee.bytes, tracee.origin, a) ==> v == 0xffff_ffff_ffff_ffff
    {
      if !(tracee.origin <= a && a + WORD_SIZE <= tracee.origin + |tracee.bytes|) {
        return MINUS_ONE;
      }
      v := tracee.LoadWord(a);
    }

    method PokeText(a: nat, v: word)
      modifies tracee
      ensures tracee.bytes == Poke(old(tracee.bytes), tracee.origin, a, v)
    {
      if tracee.origin <= a && a + WORD_SIZE <= tracee.origin + |tracee.bytes| {
        tracee.StoreWord(a, v);
      }
    }

    method SetBreakpoint()
      requires Shaped() && depth != EMPTY
      modifies calldata, tracee
      ensures
        var a := old(calldata[depth].retaddr);
        var orig := Peek(old(tracee.bytes), tracee.origin, a);
        && tracee.bytes == Poke(old(tracee.bytes), tracee.origin, a, Trapped(orig))
        && calldata[depth] == old(calldata[depth]).(breakpoint := Breakpoint(a, orig))
        && forall k :: 0 <= k < calldata.Length && k != depth ==> calldata[k] == old(calldata[k])
    {
      hide Trapped, Peek, Poke;
      var entry := calldata[depth];
      var orig := PeekText(entry.retaddr);
      TrapIs(orig);
      var trap := Trapped(orig);
      PokeText(entry.retaddr, trap);
      calldata[depth] := entry.(breakpoint := Breakpoint(entry.retaddr, orig));
    }

    method RemoveBreakpoint()
      requires Shaped() && depth != EMPTY
      modifies tracee
      ensures tracee.bytes == Poke(old(tracee.bytes), tracee.origin, calldata[depth].retaddr, calldata[depth].breakpoint.origCode)
    {
      hide Poke;
      PokeText(calldata[depth].retaddr, calldata[depth].breakpoint.origCode);
    }

    method Push(data: CallData, ghost text: seq<byte>)
      requires Valid(text) && Size() < 1000000
      modifies this`depth, calldata, tracee
      ensures Valid(text) && View() == Opened(old(View()), data.retaddr)
      ensures depth < CALLSTACK_DEPTH && calldata[depth].(breakpoint := data.breakpoint) == data
    {
      hide Poke, Peek, Trapped, Good, Opened, Entries;
      ghost var before, n := View(), Size();
      ghost var below := calldata[..n];
      depth := (depth + 1) % 0x1_0000_0000;
      calldata[depth] := data;
      SetBreakpoint();
      assert calldata[..Size()] == below + [calldata[depth]];
      OpenedIs(before, below, calldata[depth]);
      CallKeeps(text, before, data.retaddr);
    }

    method Pop(ghost text: seq<byte>) returns (r: Popped)
      requires Valid(text)
      modifies this`depth, tracee
      ensures Valid(text) && View() == Closed(old(View()))
      ensures r == if old(Size()) == 0 then Null else Entry(calldata[old(Size()) - 1])
      ensures calldata[..] == old(calldata[..])
    {
      hide Poke, Peek, Trapped, Good, Closed, Entries;
      ghost var before, n := View(), Size();
      ReturnKeeps(text, before);
      if depth == EMPTY {
        NothingClosed(before);
        return Null;
      }
      ghost var below := calldata[..n - 1];
      assert calldata[..n] == below + [calldata[n - 1]];
      ClosedIs(before, below, calldata[n - 1]);
      RemoveBreakpoint();
      r := Entry(calldata[depth]);
      depth := (depth - 1) % 0x1_0000_0000;
    }
  }

  function Entries(s: seq<CallData>): (r: seq<Saved>)
    ensures |r| == |s|
  {
    if s == [] then []
    else
      var top := s[|s| - 1];
      Entries(s[..|s| - 1]) + [Saved(top.retaddr, top.breakpoint.origCode)]
  }

  lemma EntriesMore(s: seq<CallData>, top: CallData)
    ensures Entries(s + [top]) == Entries(s) + [Saved(top.retaddr, top.breakpoint.origCode)]
  {
    assert (s + [top])[..|s|] == s;
  }

  lemma OpenedIs(t: Tracee, below: seq<CallData>, top: CallData)
    requires t.stack == Entries(below)
    requires top.breakpoint.origCode == Peek(t.memory, t.origin, top.retaddr)
    ensures Opened(t, top.retaddr) ==
      Tracee(t.origin, Poke(t.memory, t.origin, top.retaddr, Trapped(top.breakpoint.origCode)), Entries(below + [top]))
  {
    hide Entries, Poke, Peek, Trapped;
    EntriesMore(below, top);
  }

  lemma NothingClosed(t: Tracee)
    ensures t.stack == [] ==> Closed(t) == t
  {
  }

  lemma ClosedIs(t: Tracee, below: seq<CallData>, top: CallData)
    requires t.stack == Entries(below + [top])
    ensures Closed(t) ==
      Tracee(t.origin, Poke(t.memory, t.origin, top.retaddr, top.breakpoint.origCode), Entries(below))
  {
    hide Entries, Poke;
    EntriesMore(below, top);
    assert t.stack[|t.stack| - 1] == Saved(top.retaddr, top.breakpoint.origCode);
  }
}
