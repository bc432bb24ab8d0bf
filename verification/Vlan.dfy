/** The Ethernet layer below the IPv6 walk: up to eight VLAN tags between addresses and type. */
module Vlan {
  import opened ByteMemory

  const ETHER_HEADER: nat := 14
  const MAX_TAGS: nat := 8
  const ETH_P_8021Q: nat := 0x8100
  const ETH_P_8021AD: nat := 0x88a8
  const ETH_P_QINQ: nat := 0x9100

  datatype Skipped = TooShort | Skipped(l2Len: nat, etype: nat)

  /** A tag protocol identifier, and the two bytes of tag control behind it. */
  datatype Tag = Tag(tpid: nat, control: seq<byte>)

  predicate IsVlan(etype: nat) {
    etype == ETH_P_8021Q || etype == ETH_P_8021AD || etype == ETH_P_QINQ
  }

  function Short(p: seq<byte>, at: nat): nat
    requires at + 2 <= |p|
  {
    p[at] as nat * 256 + p[at + 1]
  }

  function ShortBytes(v: nat): seq<byte>
    requires v < 0x1_0000
  {
    [v / 256, v % 256]
  }

  function SkipFrom(p: seq<byte>, off: nat, etype: nat, left: nat): Skipped
    decreases left
  {
    if left == 0 || !IsVlan(etype) then Skipped(off, etype)
    else if |p| < off + 4 then TooShort
    else SkipFrom(p, off + 4, Short(p, off + 2), left - 1)
  }

  function Skip(p: seq<byte>): Skipped {
    if |p| < ETHER_HEADER then TooShort else SkipFrom(p, ETHER_HEADER, Short(p, ETHER_HEADER - 2), MAX_TAGS)
  }

  /** skip_vlan */
  method SkipVlan(p: seq<byte>) returns (res: Skipped)
    ensures res == Skip(p)
  {
    if |p| < ETHER_HEADER {
      return TooShort;
    }
    var off, etype := ETHER_HEADER, Short(p, 12);
    var i := 0;
    while i < MAX_TAGS
      invariant i <= MAX_TAGS && Skip(p) == SkipFrom(p, off, etype, MAX_TAGS - i)
    {
      if etype == ETH_P_8021Q || etype == ETH_P_8021AD || etype == ETH_P_QINQ {
        if |p| < off + 4 {
          return TooShort;
        }
        etype := Short(p, off + 2);
        off := off + 4;
      } else {
        break;
      }
      i := i + 1;
    }
    return Skipped(off, etype);
  }

  predicate Tags(tags: seq<Tag>) {
    forall t :: t in tags ==> t.tpid in {0x8100, 0x88a8, 0x9100} && |t.control| == 2
  }

  /** The type field and the tags behind it. */
  function Tagged(tags: seq<Tag>, etype: nat): (t: seq<byte>)
    requires Tags(tags) && etype < 0x1_0000
    ensures |t| == 4 * |tags| + 2
  {
    if tags == [] then ShortBytes(etype)
    else
      assert tags[0] in tags;
      ShortBytes(tags[0].tpid) + tags[0].control + Tagged(tags[1..], etype)
  }

  function TypeOf(tags: seq<Tag>, etype: nat, k: nat): nat {
    if k < |tags| then tags[k].tpid else etype
  }

  lemma TagFits(tags: seq<Tag>, i: nat)
    requires Tags(tags) && i < |tags|
    ensures tags[i].tpid < 0x1_0000 && |tags[i].control| == 2
  {
    assert tags[i] in tags;
  }

  lemma FirstType(tags: seq<Tag>, etype: nat)
    requires Tags(tags) && etype < 0x1_0000
    ensures
      var t := Tagged(tags, etype);
      |t| >= 2 && t[0] as nat * 256 + t[1] == TypeOf(tags, etype, 0)
  {
    if tags != [] {
      assert tags[0] in tags;
    }
  }

  /** The frame holds these tags, and `etype` behind them. */
  ghost predicate Chain(p: seq<byte>, off: nat, tags: seq<Tag>, etype: nat) {
    && Tags(tags) && etype < 0x1_0000 && 2 <= off && off + 4 * |tags| <= |p|
    && p[off - 2..off + 4 * |tags|] == Tagged(tags, etype)
  }

  /** A chain of tags is walked tag by tag. */
  lemma {:induction false} ChainWalk(p: seq<byte>, off: nat, tags: seq<Tag>, etype: nat, left: nat)
    requires Chain(p, off, tags, etype) && |tags| <= left
    ensures Short(p, off - 2) == TypeOf(tags, etype, 0)
    ensures SkipFrom(p, off, Short(p, off - 2), left) == SkipFrom(p, off + 4 * |tags|, etype, left - |tags|)
    decreases tags
  {
    hide Tagged, Tags, IsVlan;
    FirstRead(p, off, tags, etype);
    if tags != [] {
      ChainRest(p, off, tags, etype);
      ChainWalk(p, off + 4, tags[1..], etype, left - 1);
    }
  }

  lemma FirstRead(p: seq<byte>, off: nat, tags: seq<Tag>, etype: nat)
    requires Chain(p, off, tags, etype)
    ensures Short(p, off - 2) == TypeOf(tags, etype, 0)
  {
    hide Tagged, Tags;
    FirstType(tags, etype);
    var t := p[off - 2..off + 4 * |tags|];
    assert p[off - 2] == t[0] && p[off - 1] == t[1];
  }

  lemma ChainRest(p: seq<byte>, off: nat, tags: seq<Tag>, etype: nat)
    requires Chain(p, off, tags, etype) && tags != []
    ensures IsVlan(tags[0].tpid) && Chain(p, off + 4, tags[1..], etype)
  {
    assert tags[0] in tags;
    TagFits(tags, 0);
    var t, more := p[off - 2..off + 4 * |tags|], Tagged(tags[1..], etype);
    assert t == (ShortBytes(tags[0].tpid) + tags[0].control) + more;
    assert p[off + 2..off + 4 * |tags|] == t[4..] == more;
  }

  lemma ShortBytesRead(p: seq<byte>, i: nat)
    requires i + 2 <= |p|
    ensures Short(p, i) < 0x1_0000 && ShortBytes(Short(p, i)) == [p[i], p[i + 1]]
  {
  }

  lemma FourApart(p: seq<byte>, i: nat, j: nat)
    requires i + 4 <= j <= |p|
    ensures Short(p, i) < 0x1_0000
    ensures p[i..j] == ShortBytes(Short(p, i)) + p[i + 2..i + 4] + p[i + 4..j]
  {
    hide Short, ShortBytes;
    ShortBytesRead(p, i);
  }

  lemma TagsCons(tag: Tag, tags: seq<Tag>)
    requires IsVlan(tag.tpid) && |tag.control| == 2 && Tags(tags)
    ensures Tags([tag] + tags) && ([tag] + tags)[1..] == tags
  {
  }

  lemma ChainMore(p: seq<byte>, off: nat, tags: seq<Tag>, etype: nat)
    requires 2 <= off && off + 4 <= |p| && IsVlan(Short(p, off - 2)) && Chain(p, off + 4, tags, etype)
    ensures Chain(p, off, [Tag(Short(p, off - 2), p[off..off + 2])] + tags, etype)
  {
    hide Short, ShortBytes, IsVlan, Tags;
    TagsCons(Tag(Short(p, off - 2), p[off..off + 2]), tags);
    FourApart(p, off - 2, off + 4 + 4 * |tags|);
  }

  /** The tags that the walk passes, and how it ends behind them. */
  lemma {:induction false} WalkIsChain(p: seq<byte>, off: nat, left: nat) returns (tags: seq<Tag>, etype: nat)
    requires 2 <= off <= |p|
    ensures Chain(p, off, tags, etype) && |tags| <= left
    ensures
      if |tags| == left || !IsVlan(etype)
      then SkipFrom(p, off, Short(p, off - 2), left) == Skipped(off + 4 * |tags|, etype)
      else SkipFrom(p, off, Short(p, off - 2), left) == TooShort && |p| < off + 4 * |tags| + 4
    decreases left
  {
    hide Chain, IsVlan;
    if left > 0 && IsVlan(Short(p, off - 2)) && off + 4 <= |p| {
      tags, etype := WalkIsChain(p, off + 4, left - 1);
      ChainMore(p, off, tags, etype);
      tags := [Tag(Short(p, off - 2), p[off..off + 2])] + tags;
    } else {
      tags, etype := [], Short(p, off - 2);
      ChainNone(p, off);
    }
  }

  lemma ChainNone(p: seq<byte>, off: nat)
    requires 2 <= off <= |p|
    ensures Chain(p, off, [], Short(p, off - 2))
  {
  }

  lemma {:induction false} TaggedPrefix(tags: seq<Tag>, etype: nat, k: nat)
    requires Tags(tags) && etype < 0x1_0000 && k <= |tags|
    ensures Tags(tags[..k]) && TypeOf(tags, etype, k) < 0x1_0000
    ensures Tagged(tags[..k], TypeOf(tags, etype, k)) == Tagged(tags, etype)[..4 * k + 2]
    decreases k
  {
    hide IsVlan;
    if k < |tags| {
      TagFits(tags, k);
    }
    if k == 0 {
      FirstType(tags, etype);
      var t := Tagged(tags, etype);
      assert t[..2] == ShortBytes(TypeOf(tags, etype, 0));
    } else {
      TagFits(tags, 0);
      TaggedPrefix(tags[1..], etype, k - 1);
      assert tags[..k][0] == tags[0] && tags[..k][1..] == tags[1..][..k - 1];
      assert TypeOf(tags[1..], etype, k - 1) == TypeOf(tags, etype, k);
      PrefixMore(ShortBytes(tags[0].tpid) + tags[0].control, Tagged(tags[1..], etype), 4 * (k - 1) + 2);
    }
  }

  lemma PrefixMore(a: seq<byte>, b: seq<byte>, n: nat)
    requires n <= |b|
    ensures (a + b)[..|a| + n] == a + b[..n]
  {
  }

  /** The type stands behind tags that reach up to l2Len, and is no tag itself or follows eight. */
  ghost predicate Reports(p: seq<byte>, tags: seq<Tag>, l2Len: nat, etype: nat) {
    && Chain(p, 14, tags, etype) && l2Len == 14 + 4 * |tags|
    && |tags| <= 8 && (|tags| == 8 || etype !in {0x8100, 0x88a8, 0x9100})
  }

  /** On any bytes: an offset and a type are reported exactly when such tags lead there. */
  lemma SkippedIff(p: seq<byte>, l2Len: nat, etype: nat)
    ensures Skip(p) == Skipped(l2Len, etype) <==> exists tags :: Reports(p, tags, l2Len, etype)
  {
    hide Chain, SkipFrom;
    if Skip(p) == Skipped(l2Len, etype) {
      var tags, e := WalkIsChain(p, ETHER_HEADER, MAX_TAGS);
      assert Reports(p, tags, l2Len, etype);
    }
    if tags :| Reports(p, tags, l2Len, etype) {
      ChainFits(p, ETHER_HEADER, tags, etype);
      ChainWalk(p, ETHER_HEADER, tags, etype, MAX_TAGS);
      WalkEnds(p, l2Len, etype, MAX_TAGS - |tags|);
    }
  }

  lemma ChainFits(p: seq<byte>, off: nat, tags: seq<Tag>, etype: nat)
    requires Chain(p, off, tags, etype)
    ensures off + 4 * |tags| <= |p|
  {
  }

  lemma WalkEnds(p: seq<byte>, off: nat, etype: nat, left: nat)
    ensures left == 0 || !IsVlan(etype) ==> SkipFrom(p, off, etype, left) == Skipped(off, etype)
    ensures left > 0 && IsVlan(etype) && |p| < off + 4 ==> SkipFrom(p, off, etype, left) == TooShort
  {
  }

  /** The frame ends in the middle of its tags. */
  ghost predicate CutOff(p: seq<byte>, tags: seq<Tag>, etype: nat) {
    && Chain(p, 14, tags, etype) && |tags| < 8 && etype in {0x8100, 0x88a8, 0x9100}
    && |p| < 14 + 4 * |tags| + 4
  }

  /** -1 is returned exactly for a frame that ends before its type, or in the middle of a tag. */
  lemma TooShortIff(p: seq<byte>)
    ensures Skip(p) == TooShort <==> |p| < 14 || exists tags, etype :: CutOff(p, tags, etype)
  {
    hide Chain, SkipFrom;
    if |p| >= ETHER_HEADER && Skip(p) == TooShort {
      var tags, etype := WalkIsChain(p, ETHER_HEADER, MAX_TAGS);
      assert CutOff(p, tags, etype);
    }
    if tags, etype :| CutOff(p, tags, etype) {
      ChainFits(p, ETHER_HEADER, tags, etype);
      ChainWalk(p, ETHER_HEADER, tags, etype, MAX_TAGS);
      WalkEnds(p, ETHER_HEADER + 4 * |tags|, etype, MAX_TAGS - |tags|);
    }
  }

  /** On a frame with any tags: up to eight are skipped, and the type behind them is returned;
      a ninth is reported as the type. */
  lemma FrameIsSkipped(addresses: seq<byte>, tags: seq<Tag>, etype: nat, payload: seq<byte>)
    requires |addresses| == 12 && Tags(tags) && etype < 0x1_0000 && etype !in {0x8100, 0x88a8, 0x9100}
    ensures
      var k := if |tags| < 8 then |tags| else 8;
      Skip(addresses + Tagged(tags, etype) + payload) == Skipped(14 + 4 * k, TypeOf(tags, etype, k))
  {
    hide Tagged, SkipFrom, Tags;
    var k := if |tags| < MAX_TAGS then |tags| else MAX_TAGS;
    var t, p := Tagged(tags, etype), addresses + Tagged(tags, etype) + payload;
    TaggedPrefix(tags, etype, k);
    assert p[ETHER_HEADER - 2..ETHER_HEADER + 4 * k] == t[..4 * k + 2];
    ChainWalk(p, ETHER_HEADER, tags[..k], TypeOf(tags, etype, k), MAX_TAGS);
    WalkEnds(p, ETHER_HEADER + 4 * k, TypeOf(tags, etype, k), MAX_TAGS - k);
  }

  /** An untagged frame, one tag of each kind, and two tags, all with IPv6 behind them. */
  lemma Frames(addresses: seq<byte>, control: seq<byte>, rest: seq<byte>)
    requires |addresses| == 12 && |control| == 2
    ensures Skip(addresses + [0x86, 0xdd] + rest) == Skipped(14, 0x86dd)
    ensures Skip(addresses + [0x81, 0x00] + control + [0x86, 0xdd] + rest) == Skipped(18, 0x86dd)
    ensures Skip(addresses + [0x88, 0xa8] + control + [0x86, 0xdd] + rest) == Skipped(18, 0x86dd)
    ensures Skip(addresses + [0x91, 0x00] + control + [0x86, 0xdd] + rest) == Skipped(18, 0x86dd)
    ensures Skip(addresses + [0x88, 0xa8] + control + [0x81, 0x00] + control + [0x86, 0xdd] + rest) == Skipped(22, 0x86dd)
  {
    hide SkipFrom;
    Untagged(addresses + [0x86, 0xdd] + rest);
    OneTag(addresses + [0x81, 0x00] + control + [0x86, 0xdd] + rest);
    OneTag(addresses + [0x88, 0xa8] + control + [0x86, 0xdd] + rest);
    OneTag(addresses + [0x91, 0x00] + control + [0x86, 0xdd] + rest);
    TwoTags(addresses + [0x88, 0xa8] + control + [0x81, 0x00] + control + [0x86, 0xdd] + rest);
  }

  lemma Untagged(p: seq<byte>)
    requires |p| >= 14 && p[12] == 0x86 && p[13] == 0xdd
    ensures Skip(p) == Skipped(14, 0x86dd)
  {
  }

  lemma OneTag(p: seq<byte>)
    requires |p| >= 18 && p[16] == 0x86 && p[17] == 0xdd
    requires (p[12], p[13]) in {(0x81, 0x00), (0x88, 0xa8), (0x91, 0x00)}
    ensures Skip(p) == Skipped(18, 0x86dd)
  {
    assert SkipFrom(p, 18, 0x86dd, 7) == Skipped(18, 0x86dd);
  }

  lemma TwoTags(p: seq<byte>)
    requires |p| >= 22 && p[12] == 0x88 && p[13] == 0xa8 && p[16] == 0x81 && p[17] == 0x00 && p[20] == 0x86 && p[21] == 0xdd
    ensures Skip(p) == Skipped(22, 0x86dd)
  {
    assert SkipFrom(p, 22, 0x86dd, 6) == Skipped(22, 0x86dd);
    assert SkipFrom(p, 18, 0x8100, 7) == Skipped(22, 0x86dd);
  }
}
