/** What the XMODEM receiver makes of a byte stream, told by the bytes: every stream is a list of
    noise, taken blocks and refused pieces up to a byte that ends it or to an unfinished block. */
module XmodemStream {
  import opened ByteMemory
  import opened Bits
  import opened Checksum
  import opened Xmodem

  /** A stray byte before the first block; a block; one with a wrong checksum; and the start of one with
      a wrong complement or a wrong number, which is all that is read of it. */
  datatype Piece =
    | Noise(c: byte)
    | Block(payload: seq<byte>)
    | WrongSum(payload: seq<byte>, sum: byte)
    | WrongComplement(c: byte)
    | WrongNumber(c: byte)

  /** A piece as it stands on the line where block k is expected. */
  function Bytes(e: Piece, k: byte): seq<byte> {
    match e
    case Noise(c) => [c]
    case Block(payload) => [1, k, 255 - k] + payload + [Sum(payload) % 256]
    case WrongSum(payload, sum) => [1, k, 255 - k] + payload + [sum]
    case WrongComplement(c) => [1, k, c]
    case WrongNumber(c) => [1, c]
  }

  predicate Fine(e: Piece, k: byte, receiving: bool) {
    match e
    case Noise(c) => !receiving && c != 1 && c != 4 && c != 24
    case Block(payload) => |payload| == 128
    case WrongSum(payload, sum) => |payload| == 128 && sum != Sum(payload) % 256
    case WrongComplement(c) => c != 255 - k
    case WrongNumber(c) => c != k
  }

  function Next(e: Piece, k: byte): byte {
    if e.Block? then (k + 1) % 256 else k
  }

  function Stream(es: seq<Piece>, k: byte): seq<byte> {
    if es == [] then [] else Bytes(es[0], k) + Stream(es[1..], Next(es[0], k))
  }

  predicate AllFine(es: seq<Piece>, k: byte, receiving: bool) {
    es == [] || (Fine(es[0], k, receiving) && AllFine(es[1..], Next(es[0], k), receiving || !es[0].Noise?))
  }

  /** Some block has started. */
  predicate Started(es: seq<Piece>) {
    exists e :: e in es && !e.Noise?
  }

  /** The number expected after the pieces. */
  function Expected(es: seq<Piece>, k: byte): byte {
    if es == [] then k else Expected(es[1..], Next(es[0], k))
  }

  function Kept(es: seq<Piece>): seq<byte> {
    if es == [] then [] else (if es[0].Block? then es[0].payload else []) + Kept(es[1..])
  }

  /** ACK for a block, NAK for what is refused. */
  function Answer(e: Piece): seq<byte> {
    if e.Block? then [0x06] else if e.Noise? then [] else [0x15]
  }

  function Answers(es: seq<Piece>): seq<byte> {
    if es == [] then [] else Answer(es[0]) + Answers(es[1..])
  }

  // ---------------------------------------------------------------- what the receiver does with them

  /** One piece: only its own bytes are read, and the next byte decides what follows. */
  lemma PieceReceived(e: Piece, k: byte, receiving: bool, data: seq<byte>, replies: seq<byte>, rest: seq<byte>)
    requires Fine(e, k, receiving)
    ensures Receive(Bytes(e, k) + rest, k, receiving, data, replies) ==
      Receive(rest, Next(e, k), receiving || !e.Noise?, data + (if e.Block? then e.payload else []), replies + Answer(e))
  {
    hide Sum, Xor;
    var s := Bytes(e, k) + rest;
    assert data + [] == data && replies + [] == replies;
    match e {
      case Noise(c) => assert s[1..] == rest;
      case Block(payload) => WholeBlock(s, k, payload, Sum(payload) % 256, rest);
      case WrongSum(payload, sum) => WholeBlock(s, k, payload, sum, rest);
      case WrongComplement(c) =>
        XorBytes(k, c);
        assert s[1..][0] == k && s[1..][1] == c && s[1..][2..] == rest;
      case WrongNumber(c) => assert s[1..][0] == c && s[1..][1..] == rest;
    }
  }

  lemma WholeBlock(s: seq<byte>, k: byte, payload: seq<byte>, sum: byte, rest: seq<byte>)
    requires |payload| == 128 && s == [1, k, 255 - k] + payload + [sum] + rest
    ensures ReadBlock(s[1..], k) == if sum == Sum(payload) % 256 then Taken(payload, rest) else Refused(rest)
  {
    hide Sum, Xor;
    var t := s[1..];
    assert t[0] == k && t[1] == 255 - k && t[2..130] == payload && t[130] == sum && t[131..] == rest;
    XorBytes(k, 255 - k);
    XorBytes(Sum(payload) % 256, sum);
  }

  /** A piece in front of others. */
  lemma StreamCons(e: Piece, more: seq<Piece>, k: byte, rest: seq<byte>, data: seq<byte>, replies: seq<byte>)
    ensures
      var es := [e] + more;
      && Stream(es, k) + rest == Bytes(e, k) + (Stream(more, Next(e, k)) + rest)
      && Expected(es, k) == Expected(more, Next(e, k))
      && (data + if e.Block? then e.payload else []) + Kept(more) == data + Kept(es)
      && (replies + Answer(e)) + Answers(more) == replies + Answers(es)
      && (Started(es) <==> !e.Noise? || Started(more))
  {
    hide Bytes, Answer, Started;
    var es := [e] + more;
    assert es[1..] == more;
    StartedCons(e, more);
  }

  lemma {:induction false} StreamReceived(es: seq<Piece>, k: byte, receiving: bool, data: seq<byte>, replies: seq<byte>, rest: seq<byte>)
    requires AllFine(es, k, receiving)
    ensures Receive(Stream(es, k) + rest, k, receiving, data, replies) ==
      Receive(rest, Expected(es, k), receiving || Started(es), data + Kept(es), replies + Answers(es))
    decreases es
  {
    hide Receive, Bytes, Fine, Answer;
    if es == [] {
      assert [] + rest == rest && data + [] == data && replies + [] == replies;
    } else {
      var e, more := es[0], es[1..];
      hide Stream, Expected, Kept, Answers, Started;
      assert es == [e] + more;
      StreamCons(e, more, k, rest, data, replies);
      PieceReceived(e, k, receiving, data, replies, Stream(more, Next(e, k)) + rest);
      StreamReceived(more, Next(e, k), receiving || !e.Noise?, data + (if e.Block? then e.payload else []), replies + Answer(e), rest);
    }
  }

  lemma StartedCons(e: Piece, more: seq<Piece>)
    ensures Started([e] + more) <==> !e.Noise? || Started(more)
  {
    var es := [e] + more;
    assert es[0] == e;
    assert forall x :: x in es <==> x == e || x in more;
  }

  // ---------------------------------------------------------------- every stream is one of them

  /** A stream that stops inside a block, or where a byte should come. */
  predicate Unfinished(t: seq<byte>, k: byte) {
    || t == [] || t == [1] || t == [1, k]
    || (3 <= |t| < 132 && t[..3] == [1, k, 255 - k])
  }

  /** A byte that ends the stream for the receiver, or the start of a block it cannot finish. */
  predicate Stops(s: seq<byte>, k: byte, receiving: bool) {
    Unfinished(s, k) || s[0] == 4 || s[0] == 24 || (receiving && s[0] != 1)
  }

  function FirstPiece(s: seq<byte>, k: byte, receiving: bool): (e: Piece)
    requires !Stops(s, k, receiving)
    ensures Fine(e, k, receiving) && 0 < |Bytes(e, k)| <= |s| && s[..|Bytes(e, k)|] == Bytes(e, k)
  {
    LongEnough(s, k);
    if s[0] != 1 then Noise(s[0])
    else if s[1] != k then WrongNumber(s[1])
    else if s[2] != 255 - k then WrongComplement(s[2])
    else
      PieceBytes(s, k);
      if s[131] == Sum(s[3..131]) % 256 then Block(s[3..131]) else WrongSum(s[3..131], s[131])
  }

  lemma LongEnough(s: seq<byte>, k: byte)
    requires !Unfinished(s, k)
    ensures |s| >= 1 && (s[0] == 1 ==> |s| >= 2 && (s[1] == k ==> |s| >= 3 && (s[2] == 255 - k ==> |s| >= 132)))
  {
    assert |s| == 1 ==> s == [s[0]];
    assert |s| == 2 ==> s == [s[0], s[1]];
    assert |s| >= 3 ==> s[..3] == [s[0], s[1], s[2]];
  }

  lemma PieceBytes(s: seq<byte>, k: byte)
    requires |s| >= 132 && s[0] == 1 && s[1] == k && s[2] == 255 - k
    ensures s[..132] == [1, k, 255 - k] + s[3..131] + [s[131]]
  {
  }

  /** The pieces of a stream, and what is left. */
  function Pieces(s: seq<byte>, k: byte, receiving: bool): (r: (seq<Piece>, seq<byte>))
    decreases |s|
  {
    if Stops(s, k, receiving) then ([], s)
    else
      var e := FirstPiece(s, k, receiving);
      var (more, rest) := Pieces(s[|Bytes(e, k)|..], Next(e, k), receiving || !e.Noise?);
      ([e] + more, rest)
  }

  lemma {:induction false} PiecesAre(s: seq<byte>, k: byte, receiving: bool)
    ensures
      var (es, rest) := Pieces(s, k, receiving);
      AllFine(es, k, receiving) && s == Stream(es, k) + rest && Stops(rest, Expected(es, k), receiving || Started(es))
    decreases |s|
  {
    hide Bytes, Fine, Stops, Stream, Expected, AllFine, Started, Next;
    if Stops(s, k, receiving) {
      NoPieces(s, k, receiving);
    } else {
      var e := FirstPiece(s, k, receiving);
      var n := |Bytes(e, k)|;
      var (more, rest) := Pieces(s[n..], Next(e, k), receiving || !e.Noise?);
      PiecesAre(s[n..], Next(e, k), receiving || !e.Noise?);
      FineCons(e, more, k, receiving);
      PiecesJoined(s, e, more, rest, k);
    }
  }

  lemma PiecesJoined(s: seq<byte>, e: Piece, more: seq<Piece>, rest: seq<byte>, k: byte)
    requires |Bytes(e, k)| <= |s| && s[..|Bytes(e, k)|] == Bytes(e, k)
    requires s[|Bytes(e, k)|..] == Stream(more, Next(e, k)) + rest
    ensures s == Stream([e] + more, k) + rest
    ensures Expected([e] + more, k) == Expected(more, Next(e, k)) && (Started([e] + more) <==> !e.Noise? || Started(more))
  {
    hide Bytes, Stream, Expected, Started, Next;
    StreamCons(e, more, k, rest, [], []);
    assert s == s[..|Bytes(e, k)|] + s[|Bytes(e, k)|..];
  }

  lemma FineCons(e: Piece, more: seq<Piece>, k: byte, receiving: bool)
    ensures AllFine([e] + more, k, receiving) <==> Fine(e, k, receiving) && AllFine(more, Next(e, k), receiving || !e.Noise?)
  {
    hide Fine;
    assert ([e] + more)[1..] == more;
  }

  lemma NoPieces(s: seq<byte>, k: byte, receiving: bool)
    ensures AllFine([], k, receiving) && s == Stream([], k) + s && Expected([], k) == k && !Started([])
  {
  }

  // ---------------------------------------------------------------- how a transfer ends

  lemma StopReceived(s: seq<byte>, k: byte, receiving: bool, data: seq<byte>, replies: seq<byte>)
    requires Stops(s, k, receiving)
    ensures Receive(s, k, receiving, data, replies) ==
      if Unfinished(s, k) then Waiting(replies) else if s[0] == 4 then Done(data, replies + [0x06]) else Failed(replies)
  {
    hide Sum, Xor;
    if Unfinished(s, k) && |s| >= 3 {
      XorBytes(k, 255 - k);
      assert s[..3][0] == 1 && s[..3][1] == k && s[..3][2] == 255 - k;
    }
  }

  /** A stream cut into pieces and the byte that ends it. */
  ghost predicate Ends(input: seq<byte>, es: seq<Piece>, rest: seq<byte>) {
    AllFine(es, 1, false) && input == Stream(es, 1) + rest
  }

  lemma EndsReceived(input: seq<byte>, es: seq<Piece>, rest: seq<byte>)
    requires Ends(input, es, rest)
    ensures Receive(input, 1, false, [], []) == Receive(rest, Expected(es, 1), Started(es), Kept(es), Answers(es))
  {
    hide Receive, AllFine, Stream, Expected;
    StreamReceived(es, 1, false, [], [], rest);
    assert [] + Kept(es) == Kept(es) && [] + Answers(es) == Answers(es);
  }

  /** The pieces of the whole input, and how the receiver ends with what is left of them. */
  lemma WholeReceived(input: seq<byte>)
    ensures
      var (es, rest) := Pieces(input, 1, false);
      && Ends(input, es, rest)
      && Stops(rest, Expected(es, 1), Started(es))
      && Receive(input, 1, false, [], []) ==
           if Unfinished(rest, Expected(es, 1)) then Waiting(Answers(es))
           else if rest[0] == 4 then Done(Kept(es), Answers(es) + [0x06])
           else Failed(Answers(es))
  {
    hide Receive, AllFine, Stream, Expected, Stops, Kept, Answers, Unfinished, Started, Pieces;
    var (es, rest) := Pieces(input, 1, false);
    PiecesAre(input, 1, false);
    EndsReceived(input, es, rest);
    StopReceived(rest, Expected(es, 1), Started(es), Kept(es), Answers(es));
  }

  /** A size is returned exactly for pieces and an EOT behind them: the blocks' payloads are kept, and
      each piece has its answer. */
  lemma DoneIff(input: seq<byte>, data: seq<byte>, replies: seq<byte>)
    ensures Receive(input, 1, false, [], []) == Done(data, replies) <==>
      exists es, rest :: Ends(input, es, [4] + rest) && data == Kept(es) && replies == Answers(es) + [0x06]
  {
    hide Receive, Ends, Kept, Answers, Pieces, Started, Expected;
    if Receive(input, 1, false, [], []) == Done(data, replies) {
      WholeReceived(input);
      var (es, rest) := Pieces(input, 1, false);
      assert rest == [4] + rest[1..];
    }
    forall es, rest | Ends(input, es, [4] + rest)
      ensures Receive(input, 1, false, [], []) == Done(Kept(es), Answers(es) + [0x06])
    {
      EndsReceived(input, es, [4] + rest);
      StopReceived([4] + rest, Expected(es, 1), Started(es), Kept(es), Answers(es));
    }
  }

  ghost predicate Fails(input: seq<byte>, es: seq<Piece>, rest: seq<byte>) {
    Ends(input, es, rest) && rest != [] && (rest[0] == 24 || (rest[0] != 1 && rest[0] != 4 && Started(es)))
  }

  /** -1 is returned exactly for pieces and a CAN behind them, or any byte but SOH, EOT and CAN once a
      block has started; each piece has been answered. */
  lemma FailedIff(input: seq<byte>, replies: seq<byte>)
    ensures Receive(input, 1, false, [], []) == Failed(replies) <==>
      exists es, rest :: Fails(input, es, rest) && replies == Answers(es)
  {
    hide Receive, Ends, Kept, Answers, Pieces, Started, Expected;
    WholeReceived(input);
    var (es0, rest0) := Pieces(input, 1, false);
    assert Receive(input, 1, false, [], []) == Failed(replies) ==> Fails(input, es0, rest0) && replies == Answers(es0);
    forall es, rest | Fails(input, es, rest)
      ensures Receive(input, 1, false, [], []) == Failed(Answers(es))
    {
      EndsReceived(input, es, rest);
      StopReceived(rest, Expected(es, 1), Started(es), Kept(es), Answers(es));
    }
  }

  /** And it waits for more exactly for pieces and an unfinished block behind them. */
  lemma WaitingIff(input: seq<byte>, replies: seq<byte>)
    ensures Receive(input, 1, false, [], []) == Waiting(replies) <==>
      exists es, rest :: Ends(input, es, rest) && Unfinished(rest, Expected(es, 1)) && replies == Answers(es)
  {
    hide Receive, Ends, Kept, Answers, Pieces, Started, Expected, Unfinished;
    WholeReceived(input);
    var (es0, rest0) := Pieces(input, 1, false);
    assert Receive(input, 1, false, [], []) == Waiting(replies) ==>
      Ends(input, es0, rest0) && Unfinished(rest0, Expected(es0, 1)) && replies == Answers(es0);
    forall es, rest | Ends(input, es, rest) && Unfinished(rest, Expected(es, 1))
      ensures Receive(input, 1, false, [], []) == Waiting(Answers(es))
    {
      EndsReceived(input, es, rest);
      assert Stops(rest, Expected(es, 1), Started(es));
      StopReceived(rest, Expected(es, 1), Started(es), Kept(es), Answers(es));
    }
  }

  // ---------------------------------------------------------------- a block sent again

  /** A block sent again after it was taken, as happens when its ACK is lost: its number is not the one
      expected any more, it is refused after that byte, and its complement is taken for the start of
      something. That fails the transfer whatever follows, but for two numbers: the complement of 251
      is EOT and ends it, and the complement of 254 is SOH. */
  lemma SentAgain(k: byte, more: seq<byte>, data: seq<byte>, replies: seq<byte>)
    ensures Receive([1, k, 255 - k] + more, (k + 1) % 256, true, data, replies) ==
      if k == 251 then Done(data, replies + [0x15, 0x06])
      else if k == 254 then Receive([1] + more, 255, true, data, replies + [0x15])
      else Failed(replies + [0x15])
  {
    hide ReadBlock, Receive;
    var e, rest := WrongNumber(k), [255 - k] + more;
    assert [1, k, 255 - k] + more == Bytes(e, (k + 1) % 256) + rest;
    PieceReceived(e, (k + 1) % 256, true, data, replies, rest);
    assert data + [] == data && replies + [0x15] + [0x06] == replies + [0x15, 0x06];
    assert rest[0] == 255 - k;
    if k == 254 {
      assert rest == [1] + more;
    } else {
      StopReceived(rest, (k + 1) % 256, true, data, replies + [0x15]);
    }
  }

  lemma {:induction false} ZerosSum(n: nat)
    ensures Sum(seq(n, _ => 0)) == 0
    decreases n
  {
    if n > 0 {
      var zeros: seq<byte> := seq(n, _ => 0);
      assert zeros[..n - 1] == seq(n - 1, _ => 0);
      ZerosSum(n - 1);
    }
  }

  /** The first block sent again: -1 instead of its 128 bytes. */
  lemma SentAgainExample(zeros: seq<byte>)
    requires zeros == seq(128, _ => 0)
    ensures
      var block := [1, 1, 254] + zeros + [0];
      && Receive(block + [4], 1, false, [], []) == Done(zeros, [0x06, 0x06])
      && Receive(block + block + [4], 1, false, [], []) == Failed([0x06, 0x15])
  {
    hide Receive, Sum;
    ZerosSum(128);
    var e, block := Block(zeros), [1, 1, 254] + zeros + [0];
    assert Bytes(e, 1) == block;
    var data, replies: seq<byte> := [] + zeros, [] + [0x06];
    PieceReceived(e, 1, false, [], [], [4]);
    StopReceived([4], 2, true, data, replies);
    PieceReceived(e, 1, false, [], [], block + [4]);
    assert block + block + [4] == block + (block + [4]);
    assert block + [4] == [1, 1, 254] + (zeros + [0, 4]);
    SentAgain(1, zeros + [0, 4], data, replies);
    assert replies + [0x15] == [0x06, 0x15] && replies + [0x06] == [0x06, 0x06] && data == zeros;
  }
}
