/** What the XMODEM receiver guarantees: on any byte stream, and together with a sender that
    resends on NAK over a line that garbles blocks. */
module StopAndWait {
  import opened ByteMemory
  import opened Bits
  import opened Checksum
  import opened Xmodem

  // ---------------------------------------------------------------- any byte stream

  /** The blocks the receiver takes, each without its SOH. */
  ghost function Frames(input: seq<byte>, number: byte, receiving: bool): seq<seq<byte>>
    decreases |input|
  {
    if input == [] || input[0] == EOT || input[0] == CAN then []
    else if input[0] == SOH then
      match ReadBlock(input[1..], number)
      case Short => []
      case Refused(rest) => Frames(rest, number, true)
      case Taken(payload, rest) => [input[1..BLOCK_SIZE + 4]] + Frames(rest, (number + 1) % 256, true)
    else if receiving then []
    else Frames(input[1..], number, receiving)
  }

  /** Number, complement and checksum are right. */
  ghost predicate FrameOk(f: seq<byte>, number: nat) {
    && |f| == BLOCK_SIZE + 3
    && f[0] == number && f[1] == 255 - number
    && Sum(f[2..BLOCK_SIZE + 2]) % 256 == f[BLOCK_SIZE + 2]
  }

  ghost function Payloads(fs: seq<seq<byte>>): seq<byte>
    requires forall f :: f in fs ==> |f| == BLOCK_SIZE + 3
  {
    if fs == [] then [] else fs[0][2..BLOCK_SIZE + 2] + Payloads(fs[1..])
  }

  function Acks(replies: seq<byte>): nat {
    if replies == [] then 0
    else Acks(replies[..|replies| - 1]) + if replies[|replies| - 1] == ACK then 1 else 0
  }

  lemma AcksMore(replies: seq<byte>, c: byte)
    ensures Acks(replies + [c]) == Acks(replies) + if c == ACK then 1 else 0
  {
    assert (replies + [c])[..|replies|] == replies;
  }

  /** A block is taken exactly when it is well formed and carries the number expected. */
  lemma TakenIffOk(s: seq<byte>, number: byte)
    ensures ReadBlock(s, number).Taken? <==> |s| >= BLOCK_SIZE + 3 && FrameOk(s[..BLOCK_SIZE + 3], number)
    ensures ReadBlock(s, number).Taken? ==>
      ReadBlock(s, number) == Taken(s[2..BLOCK_SIZE + 2], s[BLOCK_SIZE + 3..])
  {
    hide Xor, Sum;
    if |s| >= BLOCK_SIZE + 3 {
      var f := s[..BLOCK_SIZE + 3];
      assert f[2..BLOCK_SIZE + 2] == s[2..BLOCK_SIZE + 2];
      XorBytes(s[0], s[1]);
      XorBytes(Sum(s[2..BLOCK_SIZE + 2]) % 256, s[BLOCK_SIZE + 2]);
    }
  }

  ghost predicate Numbered(fs: seq<seq<byte>>, number: byte) {
    forall k {:trigger fs[k]} :: 0 <= k < |fs| ==> FrameOk(fs[k], (number + k) % 256)
  }

  lemma NumberedCons(f: seq<byte>, more: seq<seq<byte>>, number: byte)
    requires FrameOk(f, number) && Numbered(more, (number + 1) % 256)
    ensures Numbered([f] + more, number)
  {
    hide FrameOk;
    var fs := [f] + more;
    forall k | 0 <= k < |fs|
      ensures FrameOk(fs[k], (number + k) % 256)
    {
      if k > 0 {
        NextNumber(number, k - 1);
        assert fs[k] == more[k - 1];
      }
    }
  }

  lemma {:induction false} FramesOk(input: seq<byte>, number: byte, receiving: bool)
    ensures Numbered(Frames(input, number, receiving), number)
    decreases |input|
  {
    hide FrameOk, ReadBlock;
    if input != [] && input[0] == SOH {
      BlockShrinks(input[1..], number);
      match ReadBlock(input[1..], number) {
        case Short =>
        case Refused(rest) => FramesOk(rest, number, true);
        case Taken(payload, rest) =>
          TakenIffOk(input[1..], number);
          Slices(input);
          FramesOk(rest, (number + 1) % 256, true);
          NumberedCons(input[1..BLOCK_SIZE + 4], Frames(rest, (number + 1) % 256, true), number);
      }
    } else if input != [] && input[0] != EOT && input[0] != CAN && !receiving {
      FramesOk(input[1..], number, receiving);
    }
  }

  lemma Slices(input: seq<byte>)
    requires |input| >= BLOCK_SIZE + 4
    ensures input[1..][..BLOCK_SIZE + 3] == input[1..BLOCK_SIZE + 4]
    ensures input[1..BLOCK_SIZE + 4][2..BLOCK_SIZE + 2] == input[1..][2..BLOCK_SIZE + 2]
  {
  }

  lemma NextNumber(number: byte, k: nat)
    ensures ((number + 1) % 256 + k) % 256 == (number + (k + 1)) % 256
    ensures (number + 0) % 256 == number
  {
  }

  /** Right after an SOH at p. */
  ghost predicate FrameAt(input: seq<byte>, p: nat, f: seq<byte>) {
    p + BLOCK_SIZE + 4 <= |input| && input[p] == SOH && input[p + 1..p + BLOCK_SIZE + 4] == f
  }

  /** The frames stand in the input one after the other, without overlap, each after an SOH. */
  ghost predicate InOrder(input: seq<byte>, fs: seq<seq<byte>>)
    decreases |fs|
  {
    fs == [] || exists p: nat :: FrameAt(input, p, fs[0]) && InOrder(input[p + BLOCK_SIZE + 4..], fs[1..])
  }

  lemma InOrderLater(input: seq<byte>, k: nat, fs: seq<seq<byte>>)
    requires k <= |input| && InOrder(input[k..], fs)
    ensures InOrder(input, fs)
  {
    if fs != [] {
      var p: nat :| FrameAt(input[k..], p, fs[0]) && InOrder(input[k..][p + BLOCK_SIZE + 4..], fs[1..]);
      assert input[k..][p + 1..p + BLOCK_SIZE + 4] == input[k + p + 1..k + p + BLOCK_SIZE + 4];
      assert input[k..][p + BLOCK_SIZE + 4..] == input[k + p + BLOCK_SIZE + 4..];
      assert FrameAt(input, k + p, fs[0]);
    }
  }

  /** A refused block leaves a tail of the input. */
  lemma RestIsTail(input: seq<byte>, number: byte)
    requires input != [] && ReadBlock(input[1..], number).Refused?
    ensures
      var rest := ReadBlock(input[1..], number).rest;
      |rest| < |input| && rest == input[|input| - |rest|..]
  {
    hide Xor, Sum;
    var s := input[1..];
    assert s[1..] == input[2..];
    assert |s| >= 2 ==> s[2..] == input[3..];
    assert |s| >= BLOCK_SIZE + 3 ==> s[BLOCK_SIZE + 3..] == input[BLOCK_SIZE + 4..];
  }

  lemma {:induction false} FramesInOrder(input: seq<byte>, number: byte, receiving: bool)
    ensures InOrder(input, Frames(input, number, receiving))
    decreases |input|
  {
    hide ReadBlock, InOrder, FrameOk;
    NoneInOrder(input);
    if input != [] && input[0] == SOH {
      BlockShrinks(input[1..], number);
      match ReadBlock(input[1..], number) {
        case Short =>
        case Refused(rest) =>
          FramesInOrder(rest, number, true);
          RestIsTail(input, number);
          InOrderLater(input, |input| - |rest|, Frames(rest, number, true));
        case Taken(payload, rest) =>
          TakenIffOk(input[1..], number);
          FramesInOrder(rest, (number + 1) % 256, true);
          InOrderCons(input, Frames(rest, (number + 1) % 256, true));
      }
    } else if input != [] && input[0] != EOT && input[0] != CAN && !receiving {
      FramesInOrder(input[1..], number, receiving);
      InOrderLater(input, 1, Frames(input[1..], number, receiving));
    }
  }

  lemma NoneInOrder(input: seq<byte>)
    ensures InOrder(input, [])
  {
  }

  lemma InOrderCons(input: seq<byte>, more: seq<seq<byte>>)
    requires |input| >= BLOCK_SIZE + 4 && input[0] == SOH && InOrder(input[1..][BLOCK_SIZE + 3..], more)
    ensures InOrder(input, [input[1..BLOCK_SIZE + 4]] + more)
  {
    var fs := [input[1..BLOCK_SIZE + 4]] + more;
    assert input[1..][BLOCK_SIZE + 3..] == input[0 + BLOCK_SIZE + 4..] && fs[1..] == more;
    assert FrameAt(input, 0, fs[0]);
  }

  lemma PayloadsCons(f: seq<byte>, more: seq<seq<byte>>, data: seq<byte>)
    requires |f| == BLOCK_SIZE + 3 && forall g :: g in more ==> |g| == BLOCK_SIZE + 3
    ensures forall g :: g in [f] + more ==> |g| == BLOCK_SIZE + 3
    ensures data + Payloads([f] + more) == (data + f[2..BLOCK_SIZE + 2]) + Payloads(more)
  {
    assert ([f] + more)[1..] == more;
  }

  lemma {:induction false} ReceiveIs(input: seq<byte>, number: byte, receiving: bool, data: seq<byte>, replies: seq<byte>)
    requires Receive(input, number, receiving, data, replies).Done?
    ensures forall f :: f in Frames(input, number, receiving) ==> |f| == BLOCK_SIZE + 3
    ensures
      var out, fs := Receive(input, number, receiving, data, replies), Frames(input, number, receiving);
      out.data == data + Payloads(fs) && Acks(out.replies) == Acks(replies) + |fs| + 1
    decreases |input|
  {
    hide ReadBlock, Acks, FrameOk;
    AcksMore(replies, ACK);
    AcksMore(replies, NAK);
    if input[0] == EOT {
      assert data + [] == data;
    } else if input[0] == SOH {
      BlockShrinks(input[1..], number);
      match ReadBlock(input[1..], number) {
        case Refused(rest) => ReceiveIs(rest, number, true, data, replies + [NAK]);
        case Taken(payload, rest) =>
          hide Payloads;
          TakenIffOk(input[1..], number);
          Slices(input);
          ReceiveIs(rest, (number + 1) % 256, true, data + payload, replies + [ACK]);
          PayloadsCons(input[1..BLOCK_SIZE + 4], Frames(rest, (number + 1) % 256, true), data);
      }
    } else {
      ReceiveIs(input[1..], number, receiving, data, replies);
    }
  }

  lemma {:induction false} PayloadsSize(fs: seq<seq<byte>>)
    requires forall f :: f in fs ==> |f| == BLOCK_SIZE + 3
    ensures |Payloads(fs)| == BLOCK_SIZE * |fs|
    decreases fs
  {
    if fs != [] {
      PayloadsSize(fs[1..]);
    }
  }

  /** Whatever the bytes: a receiver that returns a size took that many bytes in blocks that
      stand in the input in order and apart, whose numbers count up from 1 modulo 256, with right
      complements and checksums, kept exactly their payloads, and acknowledged each block and the
      end. */
  lemma AnyStream(input: seq<byte>)
    requires Receive(input, 1, false, [], []).Done?
    ensures
      var out, fs := Receive(input, 1, false, [], []), Frames(input, 1, false);
      && (forall f :: f in fs ==> |f| == BLOCK_SIZE + 3)
      && InOrder(input, fs)
      && (forall k {:trigger fs[k]} :: 0 <= k < |fs| ==> FrameOk(fs[k], (k + 1) % 256))
      && out.data == Payloads(fs) && |out.data| == BLOCK_SIZE * |fs|
      && Acks(out.replies) == |out.data| / BLOCK_SIZE + 1
  {
    hide FrameOk, Receive, Frames, InOrder;
    FramesOk(input, 1, false);
    FramesInOrder(input, 1, false);
    ReceiveIs(input, 1, false, [], []);
    var fs := Frames(input, 1, false);
    PayloadsSize(fs);
    assert [] + Payloads(fs) == Payloads(fs);
  }

  // ---------------------------------------------------------------- with a sender

  /** What block number i starts with on the line. */
  function Header(i: nat): seq<byte> {
    [SOH, (i + 1) % 256, 255 - (i + 1) % 256]
  }

  /** Payload and checksum, as sent. */
  function Intact(block: seq<byte>): seq<byte> {
    block + [Sum(block) % 256]
  }

  /** Payload and checksum bytes whose sum no longer matches. */
  predicate Garbled(tail: seq<byte>) {
    |tail| == BLOCK_SIZE + 1 && Sum(tail[..BLOCK_SIZE]) % 256 != tail[BLOCK_SIZE]
  }

  /** A transmission of block i: the header arrives, the rest does or is garbled. */
  ghost predicate IsCopy(tx: seq<byte>, blocks: seq<seq<byte>>, i: nat)
    requires i < |blocks|
  {
    tx == Header(i) + Intact(blocks[i]) || (|tx| >= 3 && tx[..3] == Header(i) && Garbled(tx[3..]))
  }

  ghost function Flatten(txs: seq<seq<byte>>): seq<byte> {
    if txs == [] then [] else txs[0] + Flatten(txs[1..])
  }

  ghost predicate Sized(blocks: seq<seq<byte>>) {
    forall b :: b in blocks ==> |b| == BLOCK_SIZE
  }

  /** The receiver takes an intact copy of the block it expects, and refuses a garbled one,
      having read all of it either way. */
  lemma CopyRead(tx: seq<byte>, more: seq<byte>, blocks: seq<seq<byte>>, i: nat)
    requires Sized(blocks) && i < |blocks| && IsCopy(tx, blocks, i)
    ensures |tx| == BLOCK_SIZE + 4 && tx[0] == SOH
    ensures ReadBlock(tx[1..] + more, (i + 1) % 256) ==
      if tx == Header(i) + Intact(blocks[i]) then Taken(blocks[i], more) else Refused(more)
  {
    hide Sum, Xor;
    var number: byte := (i + 1) % 256;
    var s := tx[1..] + more;
    var tail := tx[3..];
    assert tx == Header(i) + tail;
    assert s[0] == number && s[1] == 255 - number;
    XorBytes(s[0], s[1]);
    assert s[2..BLOCK_SIZE + 2] == tail[..BLOCK_SIZE];
    assert s[BLOCK_SIZE + 2] == tail[BLOCK_SIZE];
    assert s[BLOCK_SIZE + 3..] == more;
    XorBytes(Sum(tail[..BLOCK_SIZE]) % 256, tail[BLOCK_SIZE]);
    assert blocks[i] in blocks;
    if tx == Header(i) + Intact(blocks[i]) {
      assert tail == Intact(blocks[i]);
      assert tail[..BLOCK_SIZE] == blocks[i];
    }
  }

  /** One transmission, and what the receiver does with it. */
  lemma CopyReceived(tx: seq<byte>, more: seq<byte>, blocks: seq<seq<byte>>, i: nat, receiving: bool,
                     data: seq<byte>, replies: seq<byte>)
    requires Sized(blocks) && i < |blocks| && IsCopy(tx, blocks, i)
    ensures Receive(tx + more, (i + 1) % 256, receiving, data, replies) ==
      if tx == Header(i) + Intact(blocks[i])
      then Receive(more, (i + 2) % 256, true, data + blocks[i], replies + [ACK])
      else Receive(more, (i + 1) % 256, true, data, replies + [NAK])
  {
    hide ReadBlock, IsCopy, Header, Intact, Sized;
    CopyRead(tx, more, blocks, i);
    assert (tx + more)[1..] == tx[1..] + more;
    assert ((i + 1) % 256 + 1) % 256 == (i + 2) % 256;
  }

  /** Replies are only ever added to. */
  lemma {:induction false} RepliesGrow(input: seq<byte>, number: byte, receiving: bool, data: seq<byte>, replies: seq<byte>)
    requires Receive(input, number, receiving, data, replies).Done?
    ensures replies <= Receive(input, number, receiving, data, replies).replies
    decreases |input|
  {
    hide ReadBlock;
    if input[0] == EOT {
    } else if input[0] == SOH {
      BlockShrinks(input[1..], number);
      match ReadBlock(input[1..], number) {
        case Refused(rest) => RepliesGrow(rest, number, true, data, replies + [NAK]);
        case Taken(payload, rest) => RepliesGrow(rest, (number + 1) % 256, true, data + payload, replies + [ACK]);
      }
    } else {
      RepliesGrow(input[1..], number, receiving, data, replies);
    }
  }

  /** A sender that obeys the replies it gets: it sends block i, moves on to the next one when
      that is acknowledged, sends it again when it is not, and stops after the last block. */
  ghost predicate Obeys(txs: seq<seq<byte>>, replies: seq<byte>, blocks: seq<seq<byte>>, i: nat) {
    if txs == [] then replies == [] && i == |blocks|
    else
      && i < |blocks| && IsCopy(txs[0], blocks, i)
      && replies != [] && Obeys(txs[1..], replies[1..], blocks, if replies[0] == ACK then i + 1 else i)
  }

  /** The receiver's verdict on a transmission: the reply, and what the data grows by. */
  lemma Verdict(txs: seq<seq<byte>>, blocks: seq<seq<byte>>, i: nat, receiving: bool, data: seq<byte>, replies: seq<byte>)
    requires Sized(blocks) && i < |blocks| && txs != [] && IsCopy(txs[0], blocks, i)
    ensures
      var good := txs[0] == Header(i) + Intact(blocks[i]);
      var k, reply, gained := if good then i + 1 else i, if good then ACK else NAK, if good then blocks[i] else [];
      Receive(Flatten(txs) + [EOT], (i + 1) % 256, receiving, data, replies) ==
        Receive(Flatten(txs[1..]) + [EOT], (k + 1) % 256, true, data + gained, replies + [reply])
  {
    hide IsCopy, Receive, Sized, Header, Intact;
    var more := Flatten(txs[1..]) + [EOT];
    CopyReceived(txs[0], more, blocks, i, receiving, data, replies);
    assert Flatten(txs) + [EOT] == txs[0] + more;
    assert data + [] == data;
  }

  lemma FlattenFrom(blocks: seq<seq<byte>>, i: nat, data: seq<byte>)
    requires i < |blocks|
    ensures (data + blocks[i]) + Flatten(blocks[i + 1..]) == data + Flatten(blocks[i..])
  {
    assert blocks[i..][1..] == blocks[i + 1..];
  }

  /** The reply the sender reads next is the one the receiver gives next. */
  lemma SameReply(mine: seq<byte>, rest: seq<byte>, reply: byte)
    requires rest != [] && mine + [reply] <= mine + rest + [ACK]
    ensures reply == rest[0]
    ensures mine + rest + [ACK] == (mine + [reply]) + rest[1..] + [ACK]
  {
    assert (mine + [reply])[|mine|] == (mine + rest + [ACK])[|mine|];
  }

  /** From block i on. */
  lemma {:induction false} BlocksDelivered(txs: seq<seq<byte>>, heard: seq<byte>, blocks: seq<seq<byte>>, i: nat,
                                           receiving: bool, data: seq<byte>, replies: seq<byte>)
    requires Sized(blocks) && Obeys(txs, heard, blocks, i)
    requires
      var out := Receive(Flatten(txs) + [EOT], (i + 1) % 256, receiving, data, replies);
      out.Done? && out.replies == replies + heard + [ACK]
    ensures i <= |blocks|
    ensures Receive(Flatten(txs) + [EOT], (i + 1) % 256, receiving, data, replies).data == data + Flatten(blocks[i..])
    decreases txs
  {
    hide IsCopy, Sized, ReadBlock, Header, Intact, Receive;
    if txs == [] {
      OnlyEnd((i + 1) % 256, receiving, data, replies);
      assert blocks[i..] == [] && data + [] == data;
    } else {
      var good := txs[0] == Header(i) + Intact(blocks[i]);
      var k, reply, gained := if good then i + 1 else i, if good then ACK else NAK, if good then blocks[i] else [];
      Verdict(txs, blocks, i, receiving, data, replies);
      RepliesGrow(Flatten(txs[1..]) + [EOT], (k + 1) % 256, true, data + gained, replies + [reply]);
      SameReply(replies, heard, reply);
      BlocksDelivered(txs[1..], heard[1..], blocks, k, true, data + gained, replies + [reply]);
      FlattenFrom(blocks, i, data);
      assert data + [] == data;
    }
  }

  lemma OnlyEnd(number: byte, receiving: bool, data: seq<byte>, replies: seq<byte>)
    ensures Receive(Flatten([]) + [EOT], number, receiving, data, replies) == Done(data, replies + [ACK])
  {
    assert Flatten([]) + [EOT] == [EOT];
  }

  /** Stop and wait: if a run of the receiver returns a size, and the sender obeyed the replies
      of that run, the receiver holds exactly the sender's blocks, in order, however many there
      were and however often the line garbled one. */
  lemma Delivered(txs: seq<seq<byte>>, heard: seq<byte>, blocks: seq<seq<byte>>)
    requires Sized(blocks) && Obeys(txs, heard, blocks, 0)
    requires
      var out := Receive(Flatten(txs) + [EOT], 1, false, [], []);
      out.Done? && out.replies == heard + [ACK]
    ensures Receive(Flatten(txs) + [EOT], 1, false, [], []).data == Flatten(blocks)
  {
    hide IsCopy, Sized, Obeys, Receive, Flatten;
    assert [] + heard == heard && blocks[0..] == blocks && [] + Flatten(blocks) == Flatten(blocks);
    BlocksDelivered(txs, heard, blocks, 0, false, [], []);
  }

  // ---------------------------------------------------------------- every such run ends

  /** What the line does to one transmission: nothing, or other bytes after the header. */
  datatype Fault = Clean | Hit(tail: seq<byte>)

  ghost predicate Garbling(faults: seq<Fault>) {
    forall f :: f in faults && f.Hit? ==> Garbled(f.tail)
  }

  datatype Session = Session(txs: seq<seq<byte>>, heard: seq<byte>)

  ghost function Sent(blocks: seq<seq<byte>>, i: nat, faults: seq<Fault>): seq<byte>
    requires i < |blocks|
  {
    Header(i) + if faults != [] && faults[0].Hit? then faults[0].tail else Intact(blocks[i])
  }

  /** Sender, line and receiver step by step, until every block is acknowledged: the receiver's
      block read decides each reply, and the line leaves transmissions alone once `faults` runs
      out. The recursion ends because a clean transmission is taken. */
  ghost function Exchange(blocks: seq<seq<byte>>, i: nat, faults: seq<Fault>): Session
    requires Sized(blocks) && i <= |blocks|
    decreases |faults| + |blocks| - i
  {
    if i == |blocks| then Session([], [])
    else
      var tx, later := Sent(blocks, i, faults), if faults == [] then [] else faults[1..];
      if ReadBlock(tx[1..], (i + 1) % 256).Taken? then
        var rest := Exchange(blocks, i + 1, later);
        Session([tx] + rest.txs, [ACK] + rest.heard)
      else
        assert faults != [] by { CleanTaken(blocks, i, faults); }
        var rest := Exchange(blocks, i, later);
        Session([tx] + rest.txs, [NAK] + rest.heard)
  }

  lemma CleanTaken(blocks: seq<seq<byte>>, i: nat, faults: seq<Fault>)
    requires Sized(blocks) && i < |blocks|
    ensures !(faults != [] && faults[0].Hit?) ==> ReadBlock(Sent(blocks, i, faults)[1..], (i + 1) % 256).Taken?
    ensures Garbling(faults) ==> IsCopy(Sent(blocks, i, faults), blocks, i)
    ensures Garbling(faults) ==>
      (ReadBlock(Sent(blocks, i, faults)[1..], (i + 1) % 256).Taken? <==>
        Sent(blocks, i, faults) == Header(i) + Intact(blocks[i]))
  {
    hide ReadBlock, Sum;
    var tx := Sent(blocks, i, faults);
    assert tx[1..] + [] == tx[1..];
    assert tx[..3] == Header(i);
    assert tx[3..] == if faults != [] && faults[0].Hit? then faults[0].tail else Intact(blocks[i]);
    if IsCopy(tx, blocks, i) {
      CopyRead(tx, [], blocks, i);
    }
  }

  /** What the first transmission leads to, its verdict and what is left for the line to do. */
  lemma ExchangeStep(blocks: seq<seq<byte>>, i: nat, faults: seq<Fault>) returns (good: bool, later: seq<Fault>)
    requires Sized(blocks) && i < |blocks| && Garbling(faults)
    ensures Garbling(later) && |later| + (if good then 0 else 1) <= |faults| && |later| <= |faults|
    ensures IsCopy(Sent(blocks, i, faults), blocks, i)
    ensures good <==> Sent(blocks, i, faults) == Header(i) + Intact(blocks[i])
    ensures
      var rest := Exchange(blocks, if good then i + 1 else i, later);
      Exchange(blocks, i, faults) ==
        Session([Sent(blocks, i, faults)] + rest.txs, [if good then ACK else NAK] + rest.heard)
  {
    hide ReadBlock, IsCopy, Sized, Header, Intact, Sent;
    CleanTaken(blocks, i, faults);
    good, later := Sent(blocks, i, faults) == Header(i) + Intact(blocks[i]), if faults == [] then [] else faults[1..];
  }

  /** One transmission in front of a session that goes well. */
  lemma SessionMore(rest: Session, tx: seq<byte>, blocks: seq<seq<byte>>, i: nat, receiving: bool,
                    data: seq<byte>, replies: seq<byte>)
    requires Sized(blocks) && i < |blocks| && IsCopy(tx, blocks, i)
    ensures
      var good := tx == Header(i) + Intact(blocks[i]);
      var k, reply, gained := if good then i + 1 else i, if good then ACK else NAK, if good then blocks[i] else [];
      && (Obeys(rest.txs, rest.heard, blocks, k) ==> Obeys([tx] + rest.txs, [reply] + rest.heard, blocks, i))
      && Receive(Flatten([tx] + rest.txs) + [EOT], (i + 1) % 256, receiving, data, replies) ==
           Receive(Flatten(rest.txs) + [EOT], (k + 1) % 256, true, data + gained, replies + [reply])
      && (data + gained) + Flatten(blocks[k..]) == data + Flatten(blocks[i..])
      && (replies + [reply]) + rest.heard + [ACK] == replies + ([reply] + rest.heard) + [ACK]
  {
    hide Receive, IsCopy, Sized, Header, Intact, Obeys, Flatten;
    var txs := [tx] + rest.txs;
    assert txs[1..] == rest.txs;
    Verdict(txs, blocks, i, receiving, data, replies);
    if Obeys(rest.txs, rest.heard, blocks, i + 1) { ObeysMore(rest, tx, ACK, blocks, i); }
    if Obeys(rest.txs, rest.heard, blocks, i) { ObeysMore(rest, tx, NAK, blocks, i); }
    FlattenFrom(blocks, i, data);
    assert data + [] == data;
    RepliesInOrder(replies, ACK, rest.heard);
    RepliesInOrder(replies, NAK, rest.heard);
  }

  lemma ObeysMore(rest: Session, tx: seq<byte>, reply: byte, blocks: seq<seq<byte>>, i: nat)
    requires i < |blocks| && IsCopy(tx, blocks, i)
    requires Obeys(rest.txs, rest.heard, blocks, if reply == ACK then i + 1 else i)
    ensures Obeys([tx] + rest.txs, [reply] + rest.heard, blocks, i)
  {
    hide IsCopy;
    assert ([tx] + rest.txs)[1..] == rest.txs && ([reply] + rest.heard)[1..] == rest.heard;
  }

  lemma RepliesInOrder(replies: seq<byte>, reply: byte, heard: seq<byte>)
    ensures (replies + [reply]) + heard + [ACK] == replies + ([reply] + heard) + [ACK]
  {
  }

  lemma {:induction false} ExchangeFrom(blocks: seq<seq<byte>>, i: nat, faults: seq<Fault>,
                                        receiving: bool, data: seq<byte>, replies: seq<byte>)
    requires Sized(blocks) && i <= |blocks| && Garbling(faults)
    ensures
      var s := Exchange(blocks, i, faults);
      && Obeys(s.txs, s.heard, blocks, i)
      && Receive(Flatten(s.txs) + [EOT], (i + 1) % 256, receiving, data, replies) ==
           Done(data + Flatten(blocks[i..]), replies + s.heard + [ACK])
      && |s.txs| <= |blocks| - i + |faults|
    decreases |faults| + |blocks| - i
  {
    hide Receive, IsCopy, Sized, Header, Intact, Sent, Garbling;
    if i == |blocks| {
      OnlyEnd((i + 1) % 256, receiving, data, replies);
      assert blocks[i..] == [] && data + [] == data && replies + [] == replies;
    } else {
      hide Obeys, Flatten, Exchange;
      var good, later := ExchangeStep(blocks, i, faults);
      var k, reply, gained := if good then i + 1 else i, if good then ACK else NAK, if good then blocks[i] else [];
      SessionMore(Exchange(blocks, k, later), Sent(blocks, i, faults), blocks, i, receiving, data, replies);
      ExchangeFrom(blocks, k, later, true, data + gained, replies + [reply]);
    }
  }

  /** When the line garbles finitely many transmissions, sender and receiver finish: each fault
      costs one transmission more, and the file arrives. */
  lemma ExchangeEnds(blocks: seq<seq<byte>>, faults: seq<Fault>)
    requires Sized(blocks) && Garbling(faults)
    ensures
      var s := Exchange(blocks, 0, faults);
      && Obeys(s.txs, s.heard, blocks, 0)
      && Receive(Flatten(s.txs) + [EOT], 1, false, [], []) == Done(Flatten(blocks), s.heard + [ACK])
      && |s.txs| <= |blocks| + |faults|
  {
    hide Sized, Garbling, Obeys, Receive, Flatten, Exchange;
    var s := Exchange(blocks, 0, faults);
    assert [] + s.heard == s.heard && blocks[0..] == blocks && [] + Flatten(blocks) == Flatten(blocks);
    ExchangeFrom(blocks, 0, faults, false, [], []);
  }
}
