/** Finding the upper-layer header of an IPv6 packet behind its extension headers. */
module Ipv6Walk {
  import opened ByteMemory

  const TCP: byte := 6
  const UDP: byte := 17
  const FRAGMENT: byte := 44
  const ESP: byte := 50
  const AH: byte := 51
  const ICMPV6: byte := 58
  const IP6_HEADER: nat := 40
  const NEXT_HEADER: nat := 6

  datatype Located = Missing | Found(offset: nat, protocol: byte)

  predicate Upper(nh: byte) {
    nh == TCP || nh == UDP || nh == ICMPV6
  }

  // ---------------------------------------------------------------- extension headers

  /** Section 4 of RFC 8200 and section 2.2 of RFC 4302. Each header starts with the type of the
      next one; a fragment header has 8 bytes, an authentication header counts 4-byte words less
      2, every other one counts 8-byte words beyond the first. */
  datatype Extension =
    | Fragment(rest: seq<byte>)
    | Authentication(length: byte, rest: seq<byte>)
    | Generic(kind: byte, length: byte, rest: seq<byte>)

  predicate Shaped(e: Extension) {
    match e
    case Fragment(rest) => |rest| == 7
    case Authentication(length, rest) => |rest| == (length as nat + 2) * 4 - 2
    case Generic(kind, length, rest) =>
      kind !in {6, 17, 58, 44, 50, 51} && |rest| == (length as nat + 1) * 8 - 2
  }

  function Kind(e: Extension): byte {
    match e
    case Fragment(_) => 44
    case Authentication(_, _) => 51
    case Generic(kind, _, _) => kind
  }

  function Bytes(e: Extension, next: byte): seq<byte> {
    match e
    case Fragment(rest) => [next] + rest
    case Authentication(length, rest) => [next, length] + rest
    case Generic(_, length, rest) => [next, length] + rest
  }

  predicate AllShaped(es: seq<Extension>) {
    forall e :: e in es ==> Shaped(e)
  }

  /** The type that the header in front of the chain announces. */
  function First(es: seq<Extension>, protocol: byte): byte {
    if es == [] then protocol else Kind(es[0])
  }

  function Chain(es: seq<Extension>, protocol: byte): seq<byte> {
    if es == [] then [] else Bytes(es[0], First(es[1..], protocol)) + Chain(es[1..], protocol)
  }

  // ---------------------------------------------------------------- the walk

  function HeaderSize(p: seq<byte>, nh: byte, off: nat): (n: nat)
    requires off + 2 <= |p|
    ensures n >= 8
  {
    if nh == FRAGMENT then 8
    else if nh == AH then (p[off + 1] as nat + 2) * 4
    else (p[off + 1] as nat + 1) * 8
  }

  /** What the loop finds from a header of type nh at off on. */
  function Walk(p: seq<byte>, nh: byte, off: nat): Located
    decreases |p| - off
  {
    if Upper(nh) then Found(off, nh)
    else if |p| < off + 2 || nh == ESP then Missing
    else if |p| < off + HeaderSize(p, nh, off) then Missing
    else Walk(p, p[off], off + HeaderSize(p, nh, off))
  }

  function Locate(p: seq<byte>, ipv6Off: nat): Located {
    if |p| < ipv6Off + IP6_HEADER then Missing else Walk(p, p[ipv6Off + NEXT_HEADER], ipv6Off + IP6_HEADER)
  }

  /** ipv6_locate_l4; every read is inside the captured bytes, and the loop ends because a header
      takes at least 8 of them. */
  method LocateL4(p: seq<byte>, ipv6Off: nat) returns (res: Located)
    ensures res == Locate(p, ipv6Off)
  {
    if |p| < ipv6Off + IP6_HEADER {
      return Missing;
    }
    var nh := p[ipv6Off + NEXT_HEADER];
    var off := ipv6Off + IP6_HEADER;
    while true
      invariant off <= |p| && Locate(p, ipv6Off) == Walk(p, nh, off)
      decreases |p| - off
    {
      if nh == TCP || nh == UDP || nh == ICMPV6 {
        return Found(off, nh);
      }
      if |p| < off + 2 {
        return Missing;
      }
      if nh == FRAGMENT {
        if |p| < off + 8 {
          return Missing;
        }
        nh := p[off];
        off := off + 8;
      } else if nh == AH {
        var nxt, paylen := p[off], p[off + 1];
        var hdrlen := (paylen as nat + 2) * 4;
        if |p| < off + hdrlen {
          return Missing;
        }
        nh := nxt;
        off := off + hdrlen;
      } else if nh == ESP {
        return Missing;
      } else {
        var nxt, extlen := p[off], p[off + 1];
        var hdrlen := (extlen as nat + 1) * 8;
        if |p| < off + hdrlen {
          return Missing;
        }
        nh := nxt;
        off := off + hdrlen;
      }
    }
  }

  // ---------------------------------------------------------------- what it finds

  /** A packet that has the chain at off. */
  predicate HasAt(p: seq<byte>, off: nat, s: seq<byte>) {
    off + |s| <= |p| && p[off..off + |s|] == s
  }

  lemma {:induction false} ChainWalk(p: seq<byte>, es: seq<Extension>, protocol: byte, off: nat)
    requires AllShaped(es) && Upper(protocol) && HasAt(p, off, Chain(es, protocol))
    ensures Walk(p, First(es, protocol), off) == Found(off + |Chain(es, protocol)|, protocol)
    decreases es
  {
    hide Shaped, Bytes, HeaderSize, HasAt, Kind;
    NothingAt(p, off);
    if es != [] {
      var e, next, more := es[0], First(es[1..], protocol), Chain(es[1..], protocol);
      var b := Bytes(e, next);
      assert e in es;
      SplitAt(p, off, b, more);
      HeaderRead(p, off, e, next);
      ChainWalk(p, es[1..], protocol, off + |b|);
    }
  }

  lemma SplitAt(p: seq<byte>, off: nat, a: seq<byte>, b: seq<byte>)
    ensures HasAt(p, off, a + b) <==> HasAt(p, off, a) && HasAt(p, off + |a|, b)
  {
    if HasAt(p, off, a + b) {
      assert p[off..off + |a|] == (a + b)[..|a|];
      assert p[off + |a|..off + |a + b|] == (a + b)[|a|..];
    }
    if HasAt(p, off, a) && HasAt(p, off + |a|, b) {
      assert p[off..off + |a + b|] == p[off..off + |a|] + p[off + |a|..off + |a| + |b|];
    }
  }

  lemma NothingAt(p: seq<byte>, off: nat)
    ensures HasAt(p, off, []) <==> off <= |p|
  {
  }

  lemma HeaderRead(p: seq<byte>, off: nat, e: Extension, next: byte)
    requires Shaped(e) && HasAt(p, off, Bytes(e, next))
    ensures off + 2 <= |p| && p[off] == next && HeaderSize(p, Kind(e), off) == |Bytes(e, next)| <= |p| - off
    ensures !Upper(Kind(e)) && Kind(e) != ESP
  {
    var b := Bytes(e, next);
    assert p[off..off + |b|][0] == p[off] && p[off..off + |b|][1] == p[off + 1];
  }

  /** Every packet built from fragment, authentication and generic headers that end in TCP, UDP
      or ICMPv6 is walked to exactly that protocol, past exactly those headers. */
  lemma BuiltIsFound(front: seq<byte>, header: seq<byte>, es: seq<Extension>, protocol: byte, payload: seq<byte>)
    requires |header| == 40 && header[6] == First(es, protocol)
    requires AllShaped(es) && protocol in {6, 17, 58}
    ensures Locate(front + header + Chain(es, protocol) + payload, |front|) ==
      Found(|front| + 40 + |Chain(es, protocol)|, protocol)
  {
    var off, c := |front| + IP6_HEADER, Chain(es, protocol);
    var p := front + header + c + payload;
    assert p[|front| + NEXT_HEADER] == header[NEXT_HEADER];
    assert p[off..off + |c|] == c;
    ChainWalk(p, es, protocol, off);
  }

  /** Nothing but TCP, UDP and ICMPv6 is ever reported, whatever type a packet ends in. */
  lemma {:induction false} ReportedIs(p: seq<byte>, nh: byte, off: nat)
    ensures Walk(p, nh, off).Found? ==> Walk(p, nh, off).protocol in {6, 17, 58} && Walk(p, nh, off).offset >= off
    decreases |p| - off
  {
    hide HeaderSize;
    if !Upper(nh) && off + 2 <= |p| && nh != ESP && HeaderSize(p, nh, off) <= |p| - off {
      ReportedIs(p, p[off], off + HeaderSize(p, nh, off));
    }
  }

  /** One packet of each protocol: an echo request, a TCP segment behind Hop-by-Hop Options, a datagram
      in a first fragment, a TCP segment behind an authentication header of 24 bytes; and an encrypted
      packet. */
  lemma Packets(addresses: seq<byte>, rest: seq<byte>, icv: seq<byte>)
    requires |addresses| == 32 && |icv| == 22
    ensures Locate([0x60, 0, 0, 0, 0, 8, 58, 64] + addresses + [128, 0] + rest, 0) == Found(40, 58)
    ensures Locate([0x60, 0, 0, 0, 0, 28, 0, 64] + addresses + [6, 0, 1, 4, 0, 0, 0, 0] + rest, 0) == Found(48, 6)
    ensures Locate([0x60, 0, 0, 0, 0, 16, 44, 64] + addresses + [17, 0, 0, 0, 0, 0, 0, 1] + rest, 0) == Found(48, 17)
    ensures Locate([0x60, 0, 0, 0, 0, 44, 51, 64] + addresses + [6, 4] + icv + rest, 0) == Found(64, 6)
    ensures Locate([0x60, 0, 0, 0, 0, 16, 50, 64] + addresses + rest, 0) == Missing
  {
    hide Walk;
    EchoRequest(addresses, rest);
    BehindOptions(addresses, rest);
    FirstFragment(addresses, rest);
    Authenticated(addresses, rest, icv);
    Encrypted(addresses, rest);
  }

  lemma EchoRequest(addresses: seq<byte>, rest: seq<byte>)
    requires |addresses| == 32
    ensures Locate([0x60, 0, 0, 0, 0, 8, 58, 64] + addresses + [128, 0] + rest, 0) == Found(40, 58)
  {
  }

  lemma BehindOptions(addresses: seq<byte>, rest: seq<byte>)
    requires |addresses| == 32
    ensures Locate([0x60, 0, 0, 0, 0, 28, 0, 64] + addresses + [6, 0, 1, 4, 0, 0, 0, 0] + rest, 0) == Found(48, 6)
  {
    OneStep([0x60, 0, 0, 0, 0, 28, 0, 64] + addresses + [6, 0, 1, 4, 0, 0, 0, 0] + rest, 0, 8, 6);
  }

  lemma FirstFragment(addresses: seq<byte>, rest: seq<byte>)
    requires |addresses| == 32
    ensures Locate([0x60, 0, 0, 0, 0, 16, 44, 64] + addresses + [17, 0, 0, 0, 0, 0, 0, 1] + rest, 0) == Found(48, 17)
  {
    OneStep([0x60, 0, 0, 0, 0, 16, 44, 64] + addresses + [17, 0, 0, 0, 0, 0, 0, 1] + rest, 44, 8, 17);
  }

  lemma Authenticated(addresses: seq<byte>, rest: seq<byte>, icv: seq<byte>)
    requires |addresses| == 32 && |icv| == 22
    ensures Locate([0x60, 0, 0, 0, 0, 44, 51, 64] + addresses + [6, 4] + icv + rest, 0) == Found(64, 6)
  {
    OneStep([0x60, 0, 0, 0, 0, 44, 51, 64] + addresses + [6, 4] + icv + rest, 51, 24, 6);
  }

  lemma Encrypted(addresses: seq<byte>, rest: seq<byte>)
    requires |addresses| == 32
    ensures Locate([0x60, 0, 0, 0, 0, 16, 50, 64] + addresses + rest, 0) == Missing
  {
  }

  lemma OneStep(p: seq<byte>, nh: byte, size: nat, next: byte)
    requires 42 <= 40 + size <= |p| && p[6] == nh && p[40] == next && next in {6, 17, 58} && nh !in {6, 17, 58, 50}
    requires HeaderSize(p, nh, 40) == size
    ensures Locate(p, 0) == Found(40 + size, next)
  {
    hide HeaderSize;
    assert Walk(p, next, 40 + size) == Found(40 + size, next);
  }

  function HeaderAt(p: seq<byte>, nh: byte, off: nat): Extension
    requires off + 2 <= |p| && HeaderSize(p, nh, off) <= |p| - off
  {
    var n := HeaderSize(p, nh, off);
    if nh == FRAGMENT then Fragment(p[off + 1..off + n])
    else if nh == AH then Authentication(p[off + 1], p[off + 2..off + n])
    else Generic(nh, p[off + 1], p[off + 2..off + n])
  }

  lemma FirstBytes(p: seq<byte>, off: nat, n: nat)
    requires 2 <= n && off + n <= |p|
    ensures [p[off]] + p[off + 1..off + n] == p[off..off + n]
    ensures [p[off], p[off + 1]] + p[off + 2..off + n] == p[off..off + n]
  {
  }

  lemma HeaderAtIs(p: seq<byte>, nh: byte, off: nat)
    requires off + 2 <= |p| && HeaderSize(p, nh, off) <= |p| - off && !Upper(nh) && nh != ESP
    ensures
      var e, n := HeaderAt(p, nh, off), HeaderSize(p, nh, off);
      Shaped(e) && Kind(e) == nh && HasAt(p, off, Bytes(e, p[off])) && |Bytes(e, p[off])| == n
  {
    FirstBytes(p, off, HeaderSize(p, nh, off));
  }

  /** The headers the walk passes. */
  ghost function Passed(p: seq<byte>, nh: byte, off: nat): seq<Extension>
    requires Walk(p, nh, off).Found?
    decreases |p| - off
  {
    if Upper(nh) then [] else [HeaderAt(p, nh, off)] + Passed(p, p[off], off + HeaderSize(p, nh, off))
  }

  /** And the other way round: where it finds a protocol, the bytes it walked over are such a
      chain of headers. */
  lemma {:induction false} FoundIsChain(p: seq<byte>, nh: byte, off: nat)
    requires Walk(p, nh, off).Found? && off <= |p|
    ensures
      var es, r := Passed(p, nh, off), Walk(p, nh, off);
      && AllShaped(es) && Upper(r.protocol) && First(es, r.protocol) == nh
      && HasAt(p, off, Chain(es, r.protocol)) && r.offset == off + |Chain(es, r.protocol)|
    decreases |p| - off
  {
    hide Shaped, Bytes, HeaderSize, HasAt, Kind, HeaderAt;
    var r := Walk(p, nh, off);
    NothingAt(p, off);
    if !Upper(nh) {
      var n, e := HeaderSize(p, nh, off), HeaderAt(p, nh, off);
      var more := Passed(p, p[off], off + n);
      FoundIsChain(p, p[off], off + n);
      HeaderAtIs(p, nh, off);
      assert ([e] + more)[1..] == more;
      SplitAt(p, off, Bytes(e, p[off]), Chain(more, r.protocol));
    }
  }

  /** The header at ipv6Off announces, and is followed by, a chain that ends at `offset` in
      `protocol`. */
  ghost predicate Holds(p: seq<byte>, ipv6Off: nat, es: seq<Extension>, offset: nat, protocol: byte) {
    && AllShaped(es) && protocol in {6, 17, 58} && |p| >= ipv6Off + 40
    && p[ipv6Off + 6] == First(es, protocol)
    && HasAt(p, ipv6Off + 40, Chain(es, protocol))
    && offset == ipv6Off + 40 + |Chain(es, protocol)|
  }

  /** On any bytes: an upper-layer header is reported exactly when a chain leads to it. */
  lemma FoundIff(p: seq<byte>, ipv6Off: nat, offset: nat, protocol: byte)
    ensures Locate(p, ipv6Off) == Found(offset, protocol) <==> exists es :: Holds(p, ipv6Off, es, offset, protocol)
  {
    hide Walk, Chain, First, Passed, HasAt;
    if Locate(p, ipv6Off) == Found(offset, protocol) {
      FoundIsChain(p, p[ipv6Off + NEXT_HEADER], ipv6Off + IP6_HEADER);
      assert Holds(p, ipv6Off, Passed(p, p[ipv6Off + NEXT_HEADER], ipv6Off + IP6_HEADER), offset, protocol);
    }
    if es :| Holds(p, ipv6Off, es, offset, protocol) {
      ChainWalk(p, es, protocol, ipv6Off + IP6_HEADER);
    }
  }

  // ---------------------------------------------------------------- what the standard says

  const HOP_BY_HOP: byte := 0
  const DESTINATION: byte := 60
  const NO_NEXT_HEADER: byte := 59

  /** The extension header types of section 4 of RFC 8200 and the IANA registry it refers to, but
      for ESP, which hides what follows. */
  predicate ExtensionKind(kind: byte) {
    kind in {0, 43, 44, 51, 60, 135, 139, 140, 253, 254}
  }

  /** Section 4.5 of RFC 8200: only the fragment whose 13-bit offset is 0 holds the upper-layer
      header. */
  predicate LaterFragment(e: Extension) {
    e.Fragment? && |e.rest| == 7 && (e.rest[1] as nat * 256 + e.rest[2] as nat) / 8 > 0
  }

  /** A header that a reader may pass on the way to the upper layer. Section 4.1 takes extension
      headers in any order and number, but for Hop-by-Hop Options, which section 4 restricts to the
      place right behind the IPv6 header: anywhere else the packet is discarded. */
  predicate Passable(e: Extension, first: bool) {
    ExtensionKind(Kind(e)) && (Kind(e) == HOP_BY_HOP ==> first) && !LaterFragment(e)
  }

  /** The walk the standard asks for. */
  function StandardWalk(p: seq<byte>, nh: byte, off: nat, first: bool): Located
    decreases |p| - off
  {
    if Upper(nh) then Found(off, nh)
    else if |p| < off + 2 || |p| < off + HeaderSize(p, nh, off) then Missing
    else if !Passable(HeaderAt(p, nh, off), first) then Missing
    else StandardWalk(p, p[off], off + HeaderSize(p, nh, off), false)
  }

  function StandardLocate(p: seq<byte>, ipv6Off: nat): Located {
    if |p| < ipv6Off + IP6_HEADER then Missing
    else StandardWalk(p, p[ipv6Off + NEXT_HEADER], ipv6Off + IP6_HEADER, true)
  }

  /** Only extension headers, Hop-by-Hop Options at most at the head, and no later fragment. */
  predicate Conforming(es: seq<Extension>) {
    forall i :: 0 <= i < |es| ==>
      ExtensionKind(Kind(es[i])) && (Kind(es[i]) == HOP_BY_HOP ==> i == 0) && !LaterFragment(es[i])
  }

  /** The headers between the IPv6 header and what the program finds. */
  ghost function PassedBy(p: seq<byte>, ipv6Off: nat): seq<Extension>
    requires Locate(p, ipv6Off).Found?
  {
    Passed(p, p[ipv6Off + NEXT_HEADER], ipv6Off + IP6_HEADER)
  }

  lemma {:induction false} WalkNeverMisses(p: seq<byte>, nh: byte, off: nat, first: bool)
    requires StandardWalk(p, nh, off, first).Found?
    ensures Walk(p, nh, off) == StandardWalk(p, nh, off, first)
    decreases |p| - off
  {
    hide HeaderSize, LaterFragment;
    if !Upper(nh) {
      WalkNeverMisses(p, p[off], off + HeaderSize(p, nh, off), false);
    }
  }

  /** What the standard finds, the program finds. */
  lemma NeverMisses(p: seq<byte>, ipv6Off: nat)
    requires StandardLocate(p, ipv6Off).Found?
    ensures Locate(p, ipv6Off) == StandardLocate(p, ipv6Off)
  {
    WalkNeverMisses(p, p[ipv6Off + NEXT_HEADER], ipv6Off + IP6_HEADER, true);
  }

  /** Conforming, where `first` says whether the headers stand right behind the IPv6 header. */
  predicate ConformingFrom(es: seq<Extension>, first: bool) {
    forall i :: 0 <= i < |es| ==> Passable(es[i], first && i == 0)
  }

  lemma ConformingNext(e: Extension, es: seq<Extension>, first: bool)
    ensures ConformingFrom([e] + es, first) <==> Passable(e, first) && ConformingFrom(es, false)
  {
    hide Passable;
    var all := [e] + es;
    assert all[0] == e;
    assert forall i :: 0 <= i < |es| ==> all[i + 1] == es[i];
    assert forall i :: 1 <= i < |all| ==> all[i] == es[i - 1];
  }

  lemma {:induction false} WalkRightIff(p: seq<byte>, nh: byte, off: nat, first: bool)
    requires Walk(p, nh, off).Found?
    ensures StandardWalk(p, nh, off, first) == Walk(p, nh, off) <==> ConformingFrom(Passed(p, nh, off), first)
    decreases |p| - off
  {
    hide HeaderSize, HeaderAt, Passable;
    if !Upper(nh) {
      var more := Passed(p, p[off], off + HeaderSize(p, nh, off));
      ConformingNext(HeaderAt(p, nh, off), more, first);
      WalkRightIff(p, p[off], off + HeaderSize(p, nh, off), false);
    }
  }

  /** What the program finds is what the standard finds exactly when the headers it passed
      conform. */
  lemma RightIff(p: seq<byte>, ipv6Off: nat)
    requires Locate(p, ipv6Off).Found?
    ensures StandardLocate(p, ipv6Off) == Locate(p, ipv6Off) <==> Conforming(PassedBy(p, ipv6Off))
  {
    hide Walk, StandardWalk, Passed;
    WalkRightIff(p, p[ipv6Off + NEXT_HEADER], ipv6Off + IP6_HEADER, true);
  }

  // ---------------------------------------------------------------- where they differ

  lemma OneHeader(e: Extension, protocol: byte)
    ensures Chain([e], protocol) == Bytes(e, protocol) && First([e], protocol) == Kind(e)
  {
    hide Bytes;
    assert [e][1..] == [];
    assert Chain([], protocol) == [];
  }

  lemma HeaderBack(p: seq<byte>, off: nat, e: Extension, next: byte)
    requires Shaped(e) && HasAt(p, off, Bytes(e, next))
    ensures off + 2 <= |p| && HeaderSize(p, Kind(e), off) <= |p| - off && HeaderAt(p, Kind(e), off) == e
  {
    HeaderRead(p, off, e, next);
    var b := Bytes(e, next);
    var k := if e.Fragment? then 1 else 2;
    assert p[off..off + |b|][k..] == p[off + k..off + |b|];
    assert b[k..] == e.rest;
  }

  lemma {:induction false} ChainPassed(p: seq<byte>, es: seq<Extension>, protocol: byte, off: nat)
    requires AllShaped(es) && Upper(protocol) && HasAt(p, off, Chain(es, protocol))
    requires Walk(p, First(es, protocol), off).Found?
    ensures Passed(p, First(es, protocol), off) == es
    decreases es
  {
    hide Shaped, Bytes, HeaderSize, HasAt, Kind, HeaderAt;
    if es != [] {
      var e, next, more := es[0], First(es[1..], protocol), Chain(es[1..], protocol);
      assert e in es;
      SplitAt(p, off, Bytes(e, next), more);
      HeaderRead(p, off, e, next);
      HeaderBack(p, off, e, next);
      ChainPassed(p, es[1..], protocol, off + |Bytes(e, next)|);
    }
  }

  /** Any packet built from headers of the shapes the program knows: where the program finds the
      protocol behind them, the standard finds it if they conform, and nothing if not. */
  lemma BuiltIsRight(front: seq<byte>, header: seq<byte>, es: seq<Extension>, protocol: byte, payload: seq<byte>)
    requires |header| == 40 && header[6] == First(es, protocol)
    requires AllShaped(es) && protocol in {6, 17, 58}
    ensures
      var p := front + header + Chain(es, protocol) + payload;
      && Locate(p, |front|) == Found(|front| + 40 + |Chain(es, protocol)|, protocol)
      && StandardLocate(p, |front|) == if Conforming(es) then Locate(p, |front|) else Missing
  {
    hide Chain, First, Walk, Passed, Conforming, StandardLocate;
    var off, c := |front| + IP6_HEADER, Chain(es, protocol);
    var p := front + header + c + payload;
    BuiltIsFound(front, header, es, protocol, payload);
    assert p[|front| + NEXT_HEADER] == header[NEXT_HEADER];
    assert p[off..off + |c|] == c;
    ChainPassed(p, es, protocol, off);
    RightIff(p, |front|);
    if StandardLocate(p, |front|).Found? {
      NeverMisses(p, |front|);
    }
  }

  /** Behind No Next Header, of which section 4.7 of RFC 8200 says that nothing follows, the
      program finds TCP all the same. */
  lemma BehindNoNextHeader(front: seq<byte>, header: seq<byte>, rest: seq<byte>, payload: seq<byte>)
    requires |header| == 40 && header[6] == 59 && |rest| == 6
    ensures
      var p := front + header + ([6, 0] + rest) + payload;
      Locate(p, |front|) == Found(|front| + 48, 6) && StandardLocate(p, |front|) == Missing
  {
    hide Locate, StandardLocate;
    var es := [Generic(NO_NEXT_HEADER, 0, rest)];
    OneHeader(es[0], TCP);
    BuiltIsRight(front, header, es, TCP, payload);
  }

  /** And behind the header of a later fragment, whose payload starts in the middle. */
  lemma BehindLaterFragment(front: seq<byte>, header: seq<byte>, rest: seq<byte>, payload: seq<byte>)
    requires |header| == 40 && header[6] == 44
    requires |rest| == 7 && rest[1] as nat * 256 + rest[2] as nat >= 8
    ensures
      var p := front + header + ([17] + rest) + payload;
      Locate(p, |front|) == Found(|front| + 48, 17) && StandardLocate(p, |front|) == Missing
  {
    hide Locate, StandardLocate;
    var es := [Fragment(rest)];
    OneHeader(es[0], UDP);
    BuiltIsRight(front, header, es, UDP, payload);
  }

  /** And behind Hop-by-Hop Options that follow Destination Options. */
  lemma BehindLaterHopByHop(front: seq<byte>, header: seq<byte>, options: seq<byte>, hops: seq<byte>, payload: seq<byte>)
    requires |header| == 40 && header[6] == 60 && |options| == 6 && |hops| == 6
    ensures
      var p := front + header + ([0, 0] + options + [6, 0] + hops) + payload;
      Locate(p, |front|) == Found(|front| + 56, 6) && StandardLocate(p, |front|) == Missing
  {
    hide Locate, StandardLocate;
    var d, h := Generic(DESTINATION, 0, options), Generic(HOP_BY_HOP, 0, hops);
    var es := [d, h];
    assert es[1..] == [h] && es[1] == h;
    OneHeader(h, TCP);
    assert Chain(es, TCP) == [HOP_BY_HOP, 0] + options + [TCP, 0] + hops;
    BuiltIsRight(front, header, es, TCP, payload);
  }
}
