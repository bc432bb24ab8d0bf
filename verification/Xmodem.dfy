/** The XMODEM receiver of the boot loader: a loop over a serial line, and the function of the
    byte stream that it computes. */
module Xmodem {
  import opened ByteMemory
  import opened Bits
  import opened Checksum

  const SOH: byte := 0x01
  const EOT: byte := 0x04
  const ACK: byte := 0x06
  const NAK: byte := 0x15
  const CAN: byte := 0x18
  const BLOCK_SIZE: nat := 128

  /** One block read: not enough bytes yet, refused, or its payload; `rest` is what follows. */
  datatype BlockRead = Short | Refused(rest: seq<byte>) | Taken(payload: seq<byte>, rest: seq<byte>)

  /** How the receiver ends: with a file, with -1, or still waiting for input. `replies` are the
      bytes it answered blocks and the end of the transmission with. */
  datatype Outcome = Done(data: seq<byte>, replies: seq<byte>) | Failed(replies: seq<byte>) | Waiting(replies: seq<byte>)

  /** The bytes after SOH: number, complement, 128 bytes, checksum. */
  function ReadBlock(s: seq<byte>, number: byte): BlockRead {
    if |s| < 1 then Short
    else if s[0] != number then Refused(s[1..])
    else if |s| < 2 then Short
    else if Xor(s[0], s[1]) != 0xff then Refused(s[2..])
    else if |s| < BLOCK_SIZE + 3 then Short
    else if Xor(Sum(s[2..BLOCK_SIZE + 2]) % 256, s[BLOCK_SIZE + 2]) != 0 then Refused(s[BLOCK_SIZE + 3..])
    else Taken(s[2..BLOCK_SIZE + 2], s[BLOCK_SIZE + 3..])
  }

  function Receive(input: seq<byte>, number: byte, receiving: bool, data: seq<byte>, replies: seq<byte>): Outcome
    decreases |input|
  {
    if input == [] then Waiting(replies)
    else if input[0] == EOT then Done(data, replies + [ACK])
    else if input[0] == CAN then Failed(replies)
    else if input[0] == SOH then
      match ReadBlock(input[1..], number)
      case Short => Waiting(replies)
      case Refused(rest) => Receive(rest, number, true, data, replies + [NAK])
      case Taken(payload, rest) => Receive(rest, (number + 1) % 256, true, data + payload, replies + [ACK])
    else if receiving then Failed(replies)
    else Receive(input[1..], number, receiving, data, replies)
  }

  /** How many bytes of its payload a block puts into the buffer before it is taken or refused. */
  function BlockReach(s: seq<byte>, number: byte): (n: nat)
    ensures n <= BLOCK_SIZE && (n > 0 ==> n + 2 <= |s|)
  {
    if |s| < 2 || s[0] != number || Xor(s[0], s[1]) != 0xff then 0
    else if |s| < BLOCK_SIZE + 2 then |s| - 2
    else BLOCK_SIZE
  }

  function Max(a: nat, b: nat): nat {
    if a < b then b else a
  }

  /** How far into the buffer the receiver writes, from position `size` on. */
  function Reach(input: seq<byte>, number: byte, receiving: bool, size: nat): (n: nat)
    ensures n >= size
    decreases |input|
  {
    if input == [] || input[0] == EOT || input[0] == CAN then size
    else if input[0] == SOH then
      var n := size + BlockReach(input[1..], number);
      match ReadBlock(input[1..], number)
      case Short => n
      case Refused(rest) => Max(n, Reach(rest, number, true, size))
      case Taken(payload, rest) => Max(n, Reach(rest, (number + 1) % 256, true, size + BLOCK_SIZE))
    else if receiving then size
    else Reach(input[1..], number, receiving, size)
  }

  /** The serial line: bytes still to come, and bytes sent. */
  class Serial {
    var input: seq<byte>
    var sent: seq<byte>

    constructor (input: seq<byte>)
      ensures this.input == input && sent == []
    {
      this.input, sent := input, [];
    }

    method Send(c: byte)
      modifies this`sent
      ensures sent == old(sent) + [c]
    {
      sent := sent + [c];
    }

    /** Returns false when the line stays silent for good. */
    method Recv() returns (ok: bool, c: byte)
      modifies this`input
      ensures ok <==> old(input) != []
      ensures ok ==> c == old(input)[0] && input == old(input)[1..]
      ensures !ok ==> input == old(input)
    {
      if input == [] {
        return false, 0;
      }
      c := input[0];
      input := input[1..];
      return true, c;
    }
  }

  datatype BlockResult = Read(r: int) | NoMore

  /** xmodem_read_block: 128 bytes into the buffer at `at`, or -1. */
  method ReadBlockInto(line: Serial, number: byte, buf: array<byte>, at: nat) returns (res: BlockResult)
    requires at + BlockReach(line.input, number) <= buf.Length
    modifies line`input, buf
    ensures
      match ReadBlock(old(line.input), number)
      case Short => res == NoMore
      case Refused(rest) => res == Read(-1) && line.input == rest
      case Taken(payload, rest) => res == Read(BLOCK_SIZE) && line.input == rest && buf[at..at + BLOCK_SIZE] == payload
    ensures buf[..at] == old(buf[..at])
    ensures |line.input| <= |old(line.input)|
  {
    hide Xor, Sum;
    ghost var s := line.input;
    var ok, c := line.Recv();
    if !ok { return NoMore; }
    var blockNum := c;
    if blockNum != number {
      return Read(-1);
    }
    ok, c := line.Recv();
    if !ok { return NoMore; }
    XorBytes(blockNum, c);
    blockNum := Xor(blockNum, c);
    if blockNum != 0xff {
      assert s[1..][1..] == s[2..];
      return Read(-1);
    }
    assert line.input == s[2..];
    NoSum();
    var checkSum: byte := 0;
    var i := 0;
    while i < BLOCK_SIZE
      invariant i <= BLOCK_SIZE && i + 2 <= |s|
      invariant line.input == s[2 + i..]
      invariant buf[..at] == old(buf[..at])
      invariant buf[at..at + i] == s[2..2 + i]
      invariant checkSum == Sum(s[2..2 + i]) % 256
    {
      ok, c := line.Recv();
      if !ok { return NoMore; }
      SumMore(s[2..2 + i], c);
      assert s[2..2 + i] + [c] == s[2..2 + i + 1];
      buf[at + i] := c;
      checkSum := (checkSum + c) % 256;
      i := i + 1;
    }
    ok, c := line.Recv();
    if !ok { return NoMore; }
    assert line.input == s[BLOCK_SIZE + 3..];
    XorBytes(checkSum, c);
    checkSum := Xor(checkSum, c);
    if checkSum != 0 {
      return Read(-1);
    }
    return Read(i);
  }

  /** Exclusive-or of bytes is a byte; 0xff exactly for complements, 0 exactly for equals. */
  lemma XorBytes(a: byte, b: byte)
    ensures Xor(a, b) < 256
    ensures Xor(a, b) == 0xff <==> b == 255 - a
    ensures Xor(a, b) == 0 <==> a == b
  {
    hide Xor, Pow2;
    Pow2At32();
    XorWidth(8, a, b);
  }

  lemma {:induction false} XorWidth(k: nat, a: nat, b: nat)
    requires a < Pow2(k) && b < Pow2(k)
    ensures Xor(a, b) < Pow2(k)
    ensures Xor(a, b) == Pow2(k) - 1 <==> b == Pow2(k) - 1 - a
    ensures Xor(a, b) == 0 <==> a == b
    decreases k
  {
    if k > 0 {
      XorStep(a, b);
      XorWidth(k - 1, a / 2, b / 2);
    }
  }

  datatype Returned = Size(n: int) | Silent

  const PATIENCE: nat := 2000000

  /** xmodem_wait, for a line that gets ready after `polls` looks at it: a NAK for every two
      million of them. */
  method XmodemWait(line: Serial, polls: nat) returns (ghost naks: nat)
    modifies line`sent
    ensures naks == polls / 2000000 && line.sent == old(line.sent) + seq(naks, _ => NAK)
  {
    ghost var before := line.sent;
    naks := 0;
    var cnt, i := 0, 0;
    while i < polls
      invariant i <= polls && cnt < PATIENCE && naks * PATIENCE + cnt == i
      invariant line.sent == before + seq(naks, _ => NAK)
    {
      cnt := cnt + 1;
      if cnt >= PATIENCE {
        cnt := 0;
        line.Send(NAK);
        MoreNaks(before, naks, 1);
        naks := naks + 1;
      }
      i := i + 1;
    }
  }

  lemma MoreNaks(before: seq<byte>, a: nat, b: nat)
    ensures before + seq(a, _ => NAK) + seq(b, _ => NAK) == before + seq(a + b, _ => NAK)
    ensures b == 1 ==> before + seq(a, _ => NAK) + [NAK] == before + seq(a + 1, _ => NAK)
    ensures forall s: seq<byte> :: s + [] == s
  {
  }

  /** What is on the line after so many NAKs before the first block, and these replies. */
  ghost function SentSoFar(before: seq<byte>, naks: nat, replies: seq<byte>): seq<byte> {
    before + seq(naks, _ => NAK) + replies
  }

  lemma ReplyMore(before: seq<byte>, naks: nat, replies: seq<byte>)
    ensures SentSoFar(before, naks, replies) + [NAK] == SentSoFar(before, naks, replies + [NAK])
    ensures SentSoFar(before, naks, replies) + [ACK] == SentSoFar(before, naks, replies + [ACK])
  {
  }

  lemma NaksMore(before: seq<byte>, naks: nat, more: nat)
    ensures SentSoFar(before, naks, []) + seq(more, _ => NAK) == SentSoFar(before, naks + more, [])
    ensures SentSoFar(before, 0, []) == before
  {
    MoreNaks(before, naks, more);
  }

  lemma ReachNext(s: seq<byte>, number: byte, receiving: bool, size: nat)
    requires s != []
    ensures
      var n := Reach(s, number, receiving, size);
      if s[0] == SOH then
        && n >= size + BlockReach(s[1..], number)
        && match ReadBlock(s[1..], number)
           case Short => true
           case Refused(rest) => n >= Reach(rest, number, true, size)
           case Taken(payload, rest) => n >= Reach(rest, (number + 1) % 256, true, size + BLOCK_SIZE)
      else s[0] != EOT && s[0] != CAN && !receiving ==> n == Reach(s[1..], number, false, size)
  {
    hide ReadBlock, BlockReach;
  }

  /** The buffer never needs more room than the file that is received and one block. */
  lemma {:induction false} ReachBound(s: seq<byte>, number: byte, receiving: bool, data: seq<byte>, replies: seq<byte>)
    ensures
      match Receive(s, number, receiving, data, replies)
      case Done(all, _) => Reach(s, number, receiving, |data|) <= |all| + BLOCK_SIZE && |data| <= |all|
      case _ => Reach(s, number, receiving, |data|) <= |data| + |s|
    decreases |s|
  {
    hide ReadBlock, BlockReach;
    if s != [] && s[0] != EOT && s[0] != CAN {
      if s[0] == SOH {
        BlockShrinks(s[1..], number);
        match ReadBlock(s[1..], number)
        case Short =>
        case Refused(rest) => ReachBound(rest, number, true, data, replies + [NAK]);
        case Taken(payload, rest) => ReachBound(rest, (number + 1) % 256, true, data + payload, replies + [ACK]);
      } else if !receiving {
        ReachBound(s[1..], number, receiving, data, replies);
      }
    }
  }

  /** What the next byte leads to. */
  lemma ReceiveNext(s: seq<byte>, number: byte, receiving: bool, data: seq<byte>, replies: seq<byte>)
    ensures
      Receive(s, number, receiving, data, replies) ==
        if s == [] then Waiting(replies)
        else if s[0] == EOT then Done(data, replies + [ACK])
        else if s[0] == CAN then Failed(replies)
        else if s[0] != SOH then if receiving then Failed(replies) else Receive(s[1..], number, false, data, replies)
        else
          match ReadBlock(s[1..], number)
          case Short => Waiting(replies)
          case Refused(rest) => Receive(rest, number, true, data, replies + [NAK])
          case Taken(payload, rest) => Receive(rest, (number + 1) % 256, true, data + payload, replies + [ACK])
  {
    hide ReadBlock;
  }

  /** xmodem_recv. `naks` counts what xmodem_wait sends before the first block: that depends on
      how long the sender stays quiet. Returns Silent if the line goes dead instead. */
  method XmodemRecv(line: Serial, buf: array<byte>) returns (res: Returned, ghost naks: nat)
    requires Reach(line.input, 1, false, 0) <= buf.Length
    modifies line, buf
    ensures
      match Receive(old(line.input), 1, false, [], [])
      case Done(data, replies) =>
        res == Size(|data|) && |data| <= buf.Length && buf[..|data|] == data &&
        line.sent == SentSoFar(old(line.sent), naks, replies)
      case Failed(replies) => res == Size(-1) && line.sent == SentSoFar(old(line.sent), naks, replies)
      case Waiting(replies) => res == Silent && line.sent == SentSoFar(old(line.sent), naks, replies)
  {
    hide ReadBlock, Receive, SentSoFar, Reach, BlockReach;
    var receiving, size := 0, 0;
    var blockNumber: byte := 1;
    naks := 0;
    ghost var before, replies := line.sent, [];
    ghost var whole := Receive(line.input, 1, false, [], []);
    NaksMore(before, 0, 0);
    assert buf[..0] == [];
    while true
      invariant 0 <= receiving && 0 <= size
      invariant Reach(line.input, blockNumber, receiving > 0, size) <= buf.Length
      invariant whole == Receive(line.input, blockNumber, receiving > 0, buf[..size], replies)
      invariant receiving == 0 ==> replies == []
      invariant line.sent == SentSoFar(before, naks, replies)
      decreases |line.input|
    {
      ghost var s, data := line.input, buf[..size];
      ReceiveNext(s, blockNumber, receiving > 0, data, replies);
      if receiving == 0 {
        var polls: nat := *;
        ghost var more := XmodemWait(line, polls);
        NaksMore(before, naks, more);
        naks := naks + more;
      }
      ReplyMore(before, naks, replies);
      assert buf[..size] == data;
      if s != [] {
        ReachNext(s, blockNumber, receiving > 0, size);
      }
      var ok, c := line.Recv();
      if !ok {
        return Silent, naks;
      }
      if c == EOT {
        line.Send(ACK);
        break;
      } else if c == CAN {
        return Size(-1), naks;
      } else if c == SOH {
        receiving := receiving + 1;
        BlockShrinks(line.input, blockNumber);
        var r := ReadBlockInto(line, blockNumber, buf, size);
        if r == NoMore {
          return Silent, naks;
        }
        if r.r < 0 {
          line.Send(NAK);
          replies := replies + [NAK];
          assert buf[..size] == data;
        } else {
          blockNumber := (blockNumber + 1) % 256;
          BufferMore(buf[..], size, data);
          size := size + r.r;
          line.Send(ACK);
          replies := replies + [ACK];
        }
      } else {
        if receiving > 0 {
          return Size(-1), naks;
        }
        assert buf[..size] == data;
      }
    }
    return Size(size), naks;
  }

  lemma BufferMore(buf: seq<byte>, size: nat, data: seq<byte>)
    requires size + BLOCK_SIZE <= |buf| && buf[..size] == data
    ensures buf[..size + BLOCK_SIZE] == data + buf[size..size + BLOCK_SIZE]
  {
  }

  /** A block consumes what it reads; a taken one consumes at least its payload. */
  lemma BlockShrinks(s: seq<byte>, number: byte)
    ensures
      match ReadBlock(s, number)
      case Short => true
      case Refused(rest) => |rest| < |s|
      case Taken(payload, rest) => |payload| == BLOCK_SIZE && |rest| == |s| - BLOCK_SIZE - 3
  {
    hide Xor, Sum;
  }
}
