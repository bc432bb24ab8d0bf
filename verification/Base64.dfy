/** Base64: the encoder and decoder of base64.c, the encoding of section 4 of RFC 4648 that they
    compute, and the round trip. */
module Base64 {
  import opened ByteMemory
  import opened Bits

  const PAD: byte := 61
  const INVALID: int := -1

  type sextet = x: int | 0 <= x < 64

  // ---------------------------------------------------------------- tables

  /** The table base64, as ASCII ranges: A-Z, a-z, 0-9, +, /. */
  function Letter(v: sextet): byte {
    if v < 26 then 65 + v
    else if v < 52 then 97 + v - 26
    else if v < 62 then 48 + v - 52
    else if v == 62 then 43 else 47
  }

  /** The table unbase64, whose 129 entries answer 0 for '=' and -1 outside the alphabet. */
  function Unletter(c: byte): int
    requires c <= 128
  {
    if 65 <= c <= 90 then c - 65
    else if 97 <= c <= 122 then c - 97 + 26
    else if 48 <= c <= 57 then c - 48 + 52
    else if c == 43 then 62
    else if c == 47 then 63
    else if c == PAD then 0 else INVALID
  }

  predicate Valid(c: byte) {
    c <= 128 && Unletter(c) != INVALID
  }

  function Value(c: byte): sextet
    requires Valid(c)
  {
    Unletter(c)
  }

  /** The tables are inverse on the alphabet, and the decoder takes nothing but it and '='. */
  lemma TablesInverse(v: sextet, c: byte)
    ensures Valid(Letter(v)) && Value(Letter(v)) == v && Letter(v) != PAD
    ensures Valid(c) && c != PAD ==> Letter(Value(c)) == c
  {
  }

  // ---------------------------------------------------------------- the encoding

  /** Digit k of n in base 64, counted from the left of `of`. */
  function Digit64(n: nat, k: nat): sextet {
    if k == 0 then n % 64 else Digit64(n / 64, k - 1)
  }

  /** Section 4 of RFC 4648: 24 bits make four letters; a last group of 8 or 16 bits is filled
      with zero bits to 12 or 18 and padded to four letters. */
  function Group(g: seq<byte>): (r: seq<byte>)
    requires 1 <= |g| <= 3
    ensures |r| == 4
  {
    if |g| == 1 then
      var n := g[0] as nat * 16;
      [Letter(Digit64(n, 1)), Letter(Digit64(n, 0)), PAD, PAD]
    else if |g| == 2 then
      var n := (g[0] as nat * 256 + g[1]) * 4;
      [Letter(Digit64(n, 2)), Letter(Digit64(n, 1)), Letter(Digit64(n, 0)), PAD]
    else
      var n := (g[0] as nat * 256 + g[1]) * 256 + g[2];
      [Letter(Digit64(n, 3)), Letter(Digit64(n, 2)), Letter(Digit64(n, 1)), Letter(Digit64(n, 0))]
  }

  function Encoded(s: seq<byte>): seq<byte> {
    if |s| == 0 then []
    else if |s| <= 3 then Group(s)
    else Group(s[..3]) + Encoded(s[3..])
  }

  lemma {:induction false} EncodedSize(s: seq<byte>)
    ensures |Encoded(s)| == 4 * ((|s| + 2) / 3)
    decreases |s|
  {
    if |s| > 2 {
      EncodedSize(s[3..]);
    }
  }

  /** The bytes of four letters: 24 bits, of which a '=' in third or fourth place drops one byte. */
  function Quad(a: byte, b: byte, c: byte, d: byte): seq<byte>
    requires Valid(a) && Valid(b) && Valid(c) && Valid(d)
  {
    var n: nat := ((Value(a) as nat * 64 + Value(b)) * 64 + Value(c)) * 64 + Value(d);
    [n / 0x1_0000 % 256] + (if c != PAD then [n / 0x100 % 256] else []) + (if d != PAD then [n % 256] else [])
  }

  predicate AllValid(t: seq<byte>) {
    forall c :: c in t ==> Valid(c)
  }

  function Decoded(t: seq<byte>): seq<byte>
    requires AllValid(t)
  {
    if |t| < 4 then [] else Quad(t[0], t[1], t[2], t[3]) + Decoded(t[4..])
  }

  // ---------------------------------------------------------------- bit operations

  /** Masks and disjoint ors are quotients, remainders and sums. */
  lemma MaskLow(k: nat, x: nat)
    ensures And(x, Pow2(k) - 1) == x % Pow2(k)
  {
    hide And, Pow2;
    var p := Pow2(k);
    assert x == p * (x / p) + x % p;
    AndLowOnes(k, x / p, x % p);
  }

  lemma MaskHigh(k: nat, w: nat, q: nat, r: nat, m: nat)
    requires r < Pow2(k) && q < Pow2(w) && m == Pow2(w) - 1
    ensures And(Pow2(k) * q + r, Pow2(k) * m + 0) == Pow2(k) * q
  {
    hide And, Pow2;
    AndBlock(k, q, r, m, 0);
    AndOnes(w, q);
    AndZero(r);
  }

  lemma JoinBits(k: nat, a: nat, b: nat)
    requires b < Pow2(k)
    ensures Or(Pow2(k) * a, b) == Pow2(k) * a + b
  {
    hide Or, Pow2;
    OrBlock(k, a, 0, 0, b);
    OrZero(a);
    OrZero(b);
  }

  lemma Powers()
    ensures Pow2(1) == 2 && Pow2(2) == 4 && Pow2(3) == 8 && Pow2(4) == 16 && Pow2(5) == 32 && Pow2(6) == 64 && Pow2(8) == 256
  {
    Pow2At32();
    assert Pow2(0) == 1;
    assert Pow2(1) == 2;
    assert Pow2(2) == 4;
    assert Pow2(3) == 8;
    assert Pow2(4) == 16;
    assert Pow2(5) == 32;
  }

  /** The masks and shifts of the encoder. */
  lemma EncoderBits(x: byte, y: byte, z: byte)
    ensures And(x, 0xfc) / 4 == x / 4
    ensures And(x, 0x03) * 16 == x % 4 * 16
    ensures Or(And(x, 0x03) * 16, And(y, 0xf0) / 16) == x % 4 * 16 + y / 16
    ensures And(y, 0x0f) * 4 == y % 16 * 4
    ensures Or(And(y, 0x0f) * 4, And(z, 0xc0) / 64) == y % 16 * 4 + z / 64
    ensures And(z, 0x3f) == z % 64
  {
    hide And, Or, Pow2;
    Powers();
    MaskHigh(2, 6, x / 4, x % 4, 63);
    MaskLow(2, x);
    MaskHigh(4, 4, y / 16, y % 16, 15);
    JoinBits(4, x % 4, y / 16);
    MaskLow(4, y);
    MaskHigh(6, 2, z / 64, z % 64, 3);
    JoinBits(2, y % 16, z / 64);
    MaskLow(6, z);
  }

  /** And those of the decoder. */
  lemma DecoderBits(a: sextet, b: sextet, c: sextet, d: sextet)
    ensures Or(a * 4, And(b, 0x30) / 16) == a * 4 + b / 16
    ensures Or(And(b, 0x0f) * 16, And(c, 0x3c) / 4) == b % 16 * 16 + c / 4
    ensures Or(And(c, 0x03) * 64, d) == c % 4 * 64 + d
  {
    hide And, Or, Pow2;
    Powers();
    MaskHigh(4, 2, b / 16, b % 16, 3);
    JoinBits(2, a, b / 16);
    MaskLow(4, b);
    MaskHigh(2, 4, c / 4, c % 4, 15);
    JoinBits(4, b % 16, c / 4);
    MaskLow(2, c);
    JoinBits(6, c % 4, d);
  }

  lemma ThreeBytes(x: byte, y: byte, z: byte)
    ensures
      var n: nat := (x as nat * 256 + y) * 256 + z;
      n / 64 == (x as nat * 256 + y) * 4 + z / 64 && n % 64 == z % 64
  {
  }

  lemma TwoBytes(x: byte, y: byte, r: nat)
    requires r < 4
    ensures
      var n: nat := (x as nat * 256 + y) * 4 + r;
      n / 64 == x as nat * 16 + y / 16 && n % 64 == y % 16 * 4 + r
  {
  }

  lemma OneByte(x: byte, r: nat)
    requires r < 16
    ensures (x as nat * 16 + r) / 64 == x / 4 && (x as nat * 16 + r) % 64 == x % 4 * 16 + r
    ensures (x / 4) % 64 == x / 4
  {
  }

  /** What the encoder's expressions are in the 24, 16 or 8 bits. */
  lemma GroupDigits(x: byte, y: byte, z: byte)
    ensures
      var n: nat := (x as nat * 256 + y) * 256 + z;
      && Digit64(n, 3) == x / 4 && Digit64(n, 2) == x % 4 * 16 + y / 16
      && Digit64(n, 1) == y % 16 * 4 + z / 64 && Digit64(n, 0) == z % 64
    ensures
      var n: nat := (x as nat * 256 + y) * 4;
      Digit64(n, 2) == x / 4 && Digit64(n, 1) == x % 4 * 16 + y / 16 && Digit64(n, 0) == y % 16 * 4
    ensures Digit64(x as nat * 16, 1) == x / 4 && Digit64(x as nat * 16, 0) == x % 4 * 16
  {
    hide Digit64;
    ThreeBytes(x, y, z);
    TwoBytes(x, y, z / 64);
    TwoBytes(x, y, 0);
    OneByte(x, y / 16);
    OneByte(x, 0);
    DigitUp((x as nat * 256 + y) * 256 + z);
    DigitUp((x as nat * 256 + y) * 4 + z / 64);
    DigitUp((x as nat * 256 + y) * 4);
    DigitUp(x as nat * 16 + y / 16);
    DigitUp(x as nat * 16);
    DigitUp(x as nat / 4);
  }

  lemma DigitUp(n: nat)
    ensures Digit64(n, 0) == n % 64 && Digit64(n, 1) == Digit64(n / 64, 0)
    ensures Digit64(n, 2) == Digit64(n / 64, 1) && Digit64(n, 3) == Digit64(n / 64, 2)
  {
  }

  lemma BytesOf(x: byte, y: byte, z: byte)
    ensures
      var n: nat := (x as nat * 256 + y) * 256 + z;
      n / 0x1_0000 % 256 == x && n / 0x100 % 256 == y && n % 256 == z
  {
    var n: nat := (x as nat * 256 + y) * 256 + z;
    assert n / 0x100 == x as nat * 256 + y;
    assert n / 0x1_0000 == x;
  }

  lemma QuadDigits(a: sextet, b: sextet, c: sextet, d: sextet)
    ensures
      var n: nat := ((a as nat * 64 + b) * 64 + c) * 64 + d;
      n / 0x1_0000 % 256 == a * 4 + b / 16 && n / 0x100 % 256 == b % 16 * 16 + c / 4 && n % 256 == c % 4 * 64 + d
  {
    assert b == b / 16 * 16 + b % 16 && c == c / 4 * 4 + c % 4;
    BytesOf(a as nat * 4 + b / 16, b % 16 * 16 + c / 4, c % 4 * 64 + d);
  }

  lemma QuadIs(a: byte, b: byte, c: byte, d: byte)
    requires Valid(a) && Valid(b) && Valid(c) && Valid(d)
    ensures Quad(a, b, c, d) ==
      [Value(a) * 4 + Value(b) / 16]
      + (if c != PAD then [Value(b) % 16 * 16 + Value(c) / 4] else [])
      + (if d != PAD then [Value(c) % 4 * 64 + Value(d)] else [])
  {
    hide Valid, Value;
    QuadDigits(Value(a), Value(b), Value(c), Value(d));
  }

  // ---------------------------------------------------------------- the encoder

  lemma GroupIs(g: seq<byte>)
    requires 1 <= |g| <= 3
    ensures |g| == 1 ==> Group(g) == [Letter(g[0] / 4), Letter(g[0] % 4 * 16), PAD, PAD]
    ensures |g| == 2 ==> Group(g) == [Letter(g[0] / 4), Letter(g[0] % 4 * 16 + g[1] / 16), Letter(g[1] % 16 * 4), PAD]
    ensures |g| == 3 ==>
      Group(g) == [Letter(g[0] / 4), Letter(g[0] % 4 * 16 + g[1] / 16), Letter(g[1] % 16 * 4 + g[2] / 64), Letter(g[2] % 64)]
  {
    hide Letter, Digit64;
    GroupDigits(g[0], if |g| > 1 then g[1] else 0, if |g| > 2 then g[2] else 0);
  }

  /** One pass of the encoder's loop: four letters from one, two or three bytes. */
  method EncodeGroup(g: seq<byte>, output: array<byte>, at: nat)
    requires 1 <= |g| <= 3 && at + 4 <= output.Length
    modifies output
    ensures output[at..at + 4] == Group(g)
    ensures output[..at] == old(output[..at]) && output[at + 4..] == old(output[at + 4..])
  {
    hide And, Or, Letter, Group;
    GroupIs(g);
    var x, out := g[0], at;
    EncoderBits(x, 0, 0);
    output[out] := Letter(And(x, 0xfc) / 4);
    out := out + 1;
    if |g| == 1 {
      output[out] := Letter(And(x, 0x03) * 16);
      output[out + 1] := PAD;
      output[out + 2] := PAD;
      return;
    }
    var y := g[1];
    EncoderBits(x, y, 0);
    output[out] := Letter(Or(And(x, 0x03) * 16, And(y, 0xf0) / 16));
    out := out + 1;
    if |g| == 2 {
      output[out] := Letter(And(y, 0x0f) * 4);
      output[out + 1] := PAD;
      return;
    }
    var z := g[2];
    EncoderBits(x, y, z);
    output[out] := Letter(Or(And(y, 0x0f) * 4, And(z, 0xc0) / 64));
    output[out + 1] := Letter(And(z, 0x3f));
  }

  lemma EncodedStep(s: seq<byte>, done: seq<byte>)
    requires s != []
    ensures
      var n := if |s| < 3 then |s| else 3;
      && done + Encoded(s) == (done + Group(s[..n])) + Encoded(s[n..])
      && |Encoded(s)| == 4 + |Encoded(s[n..])|
    ensures |s| <= 3 ==> done + Encoded(s) == done + Group(s)
  {
    hide Group;
    if |s| <= 3 {
      assert s[..|s|] == s && s[|s|..] == [];
    }
  }

  /** base64_encode: the letters, then a NUL. */
  method Encode(input: seq<byte>, output: array<byte>)
    requires |input| > 0 && output.Length > 4 * ((|input| + 2) / 3)
    modifies output
    ensures
      var n := 4 * ((|input| + 2) / 3);
      && output[..n] == Encoded(input) && (forall j :: 0 <= j < n ==> output[j] == Character(input, j) as int)
      && output[n] == 0 && output[n + 1..] == old(output[n + 1..])
  {
    hide Group, Encoded, Character;
    EncodedSize(input);
    var at, out, len := 0, 0, |input|;
    ghost var before, total := output[..], |Encoded(input)|;
    assert input[0..] == input;
    while true
      invariant len > 0 && at + len == |input|
      invariant out + |Encoded(input[at..])| == total
      invariant output[..out] + Encoded(input[at..]) == Encoded(input)
      invariant output[total + 1..] == before[total + 1..]
      decreases len
    {
      ghost var done := output[..out];
      var n := if len < 3 then len else 3;
      var g := input[at..at + n];
      assert g == input[at..][..n] && input[at + n..] == input[at..][n..];
      EncodedStep(input[at..], done);
      EncodeGroup(g, output, out);
      assert output[..out + 4] == done + Group(g);
      out := out + 4;
      if len <= 2 {
        break;
      }
      at := at + 3;
      len := len - 3;
      if len == 0 {
        break;
      }
    }
    output[out] := 0;
    EncodedWhole(input, output[..out]);
  }

  // ---------------------------------------------------------------- the decoder

  /** One pass of the decoder's loop: one to three bytes from four letters. */
  method DecodeQuad(q: seq<byte>, output: array<byte>, at: nat) returns (n: nat)
    requires |q| == 4 && AllValid(q) && at + 3 <= output.Length
    modifies output
    ensures n == |Quad(q[0], q[1], q[2], q[3])| <= 3
    ensures output[at..at + n] == Quad(q[0], q[1], q[2], q[3])
    ensures output[..at] == old(output[..at])
  {
    hide And, Or, Quad, Unletter;
    var a, b, c, d := Value(q[0]), Value(q[1]), Value(q[2]), Value(q[3]);
    QuadIs(q[0], q[1], q[2], q[3]);
    DecoderBits(a, b, c, d);
    output[at] := Or(a as nat * 4, And(b, 0x30) / 16);
    n := 1;
    if q[2] != PAD {
      output[at + n] := Or(And(b, 0x0f) * 16, And(c, 0x3c) / 4);
      n := n + 1;
    }
    if q[3] != PAD {
      output[at + n] := Or(And(c, 0x03) * 64, d);
      n := n + 1;
    }
  }

  /** The check in front of each pass. */
  method CheckQuad(q: seq<byte>) returns (ok: bool)
    requires |q| == 4
    ensures ok <==> AllValid(q)
  {
    hide Unletter;
    var i := 0;
    while i <= 3
      invariant i <= 4 && AllValid(q[..i])
    {
      if q[i] > 128 || Unletter(q[i]) == INVALID {
        assert q[i] in q;
        return false;
      }
      assert q[..i + 1] == q[..i] + [q[i]];
      i := i + 1;
    }
    assert q[..4] == q;
    return true;
  }

  lemma ValidMore(input: seq<byte>, at: nat)
    requires at + 4 <= |input|
    ensures AllValid(input) ==> AllValid(input[at..at + 4])
    ensures AllValid(input[..at]) && AllValid(input[at..at + 4]) ==> AllValid(input[..at + 4])
  {
    hide Valid;
    assert forall c :: c in input[at..at + 4] ==> c in input;
    assert input[..at + 4] == input[..at] + input[at..at + 4];
  }

  /** base64_decode: the number of bytes written, or -1 for a character outside the alphabet. */
  method Decode(input: seq<byte>, output: array<byte>) returns (outLen: int)
    requires |input| > 0 && |input| % 4 == 0 && output.Length >= |input| / 4 * 3
    modifies output
    ensures outLen == -1 <==> exists c :: c in input && Foreign(c)
    ensures outLen == -1 <==> !AllValid(input)
    ensures AllValid(input) ==> 0 <= outLen == |Decoded(input)| <= output.Length && output[..outLen] == Decoded(input)
  {
    hide Quad, AllValid, Foreign;
    var at, len := 0, |input|;
    outLen := 0;
    assert AllValid(input[..0]) by { NoneInvalid(input); }
    assert input[0..] == input;
    while true
      invariant len > 0 && len % 4 == 0 && at + len == |input|
      invariant AllValid(input[..at])
      invariant 0 <= outLen && outLen + len / 4 * 3 <= output.Length
      invariant AllValid(input) ==> AllValid(input[at..]) && output[..outLen] + Decoded(input[at..]) == Decoded(input)
      decreases len
    {
      ghost var done := output[..outLen];
      var q := input[at..at + 4];
      ValidMore(input, at);
      var ok := CheckQuad(q);
      if !ok {
        ForeignIn(input);
        return -1;
      }
      var n := DecodeQuad(q, output, outLen);
      DecodedStep(input[at..], q, done);
      assert output[..outLen + n] == done + Quad(q[0], q[1], q[2], q[3]);
      outLen := outLen + n;
      at := at + 4;
      len := len - 4;
      if len == 0 {
        assert input[..at] == input;
        break;
      }
    }
    ForeignIn(input);
  }

  lemma ForeignIn(input: seq<byte>)
    ensures !AllValid(input) <==> exists c :: c in input && Foreign(c)
  {
    hide Foreign, Valid;
    forall c | c in input
      ensures Foreign(c) <==> !Valid(c)
    {
      ForeignIs(c);
    }
  }

  lemma NoneInvalid(input: seq<byte>)
    ensures AllValid(input[..0])
  {
  }

  lemma DecodedStep(s: seq<byte>, q: seq<byte>, done: seq<byte>)
    requires |s| >= 4 && q == s[..4] && AllValid(q)
    ensures Valid(q[0]) && Valid(q[1]) && Valid(q[2]) && Valid(q[3])
    ensures AllValid(s) ==> AllValid(s[4..])
    ensures AllValid(s) ==> done + Decoded(s) == done + Quad(q[0], q[1], q[2], q[3]) + Decoded(s[4..])
  {
    hide Quad, Valid;
  }

  // ---------------------------------------------------------------- the round trip

  lemma LetterBack(v: sextet)
    ensures Valid(Letter(v)) && Value(Letter(v)) == v && Letter(v) != PAD
  {
    TablesInverse(v, 0);
  }

  /** The encoder's expressions, put together by the decoder's. */
  lemma BytesBack(x: byte, y: byte, z: byte)
    ensures x / 4 * 4 + (x % 4 * 16 + y / 16) / 16 == x
    ensures (x % 4 * 16 + y / 16) % 16 * 16 + (y % 16 * 4 + z / 64) / 4 == y
    ensures (y % 16 * 4 + z / 64) % 4 * 64 + z % 64 == z
  {
  }

  lemma OneBack(g: seq<byte>)
    requires |g| == 1
    ensures
      var t := Group(g);
      AllValid(t) && Quad(t[0], t[1], t[2], t[3]) == g
  {
    hide Letter, Group, Quad, Valid, Value;
    GroupIs(g);
    LetterBack(g[0] / 4);
    LetterBack(g[0] % 4 * 16);
    PadIsZero();
    QuadIs(Letter(g[0] / 4), Letter(g[0] % 4 * 16), PAD, PAD);
    BytesBack(g[0], 0, 0);
  }

  lemma TwoBack(g: seq<byte>)
    requires |g| == 2
    ensures
      var t := Group(g);
      AllValid(t) && Quad(t[0], t[1], t[2], t[3]) == g
  {
    hide Letter, Group, Quad, Valid, Value;
    GroupIs(g);
    LetterBack(g[0] / 4);
    LetterBack(g[0] % 4 * 16 + g[1] / 16);
    LetterBack(g[1] % 16 * 4);
    PadIsZero();
    QuadIs(Letter(g[0] / 4), Letter(g[0] % 4 * 16 + g[1] / 16), Letter(g[1] % 16 * 4), PAD);
    BytesBack(g[0], g[1], 0);
  }

  lemma ThreeBack(g: seq<byte>)
    requires |g| == 3
    ensures
      var t := Group(g);
      AllValid(t) && Quad(t[0], t[1], t[2], t[3]) == g
  {
    hide Letter, Group, Quad, Valid, Value;
    GroupIs(g);
    LetterBack(g[0] / 4);
    LetterBack(g[0] % 4 * 16 + g[1] / 16);
    LetterBack(g[1] % 16 * 4 + g[2] / 64);
    LetterBack(g[2] % 64);
    QuadIs(Letter(g[0] / 4), Letter(g[0] % 4 * 16 + g[1] / 16), Letter(g[1] % 16 * 4 + g[2] / 64), Letter(g[2] % 64));
    BytesBack(g[0], g[1], g[2]);
  }

  lemma GroupBack(g: seq<byte>)
    requires 1 <= |g| <= 3
    ensures
      var t := Group(g);
      AllValid(t) && Quad(t[0], t[1], t[2], t[3]) == g
  {
    hide Group, Quad, Valid;
    if |g| == 1 {
      OneBack(g);
    } else if |g| == 2 {
      TwoBack(g);
    } else {
      ThreeBack(g);
    }
  }

  lemma PadIsZero()
    ensures Valid(PAD) && Value(PAD) == 0
  {
  }

  /** Decoding an encoding gives the bytes back. */
  lemma {:induction false} RoundTrip(s: seq<byte>)
    ensures AllValid(Encoded(s)) && Decoded(Encoded(s)) == s
    decreases |s|
  {
    hide Group, Quad, Valid;
    if s != [] {
      var g, rest := if |s| <= 3 then s else s[..3], if |s| <= 3 then [] else s[3..];
      GroupBack(g);
      RoundTrip(rest);
      var t := Encoded(s);
      assert t == Group(g) + Encoded(rest) && t[4..] == Encoded(rest);
      assert g + rest == s;
    }
  }

  // ---------------------------------------------------------------- line 57 as written

  /** (unbase64[c] & 0x30) >> 4, where -1 has all bits set. */
  function HighPair(c: byte): (h: nat)
    ensures h < 4
  {
    if c > 128 || Unletter(c) == INVALID then 3 else Unletter(c) / 16
  }

  /** The character the first byte is completed with when it is read at index i == 4 of the
      group: the next group's first, or what follows the text. */
  function Fifth(t: seq<byte>, after: byte): byte {
    if |t| > 4 then t[4] else after
  }

  function DecodedAsWritten(t: seq<byte>, after: byte): seq<byte>
    requires AllValid(t) && after <= 128
  {
    if |t| < 4 then []
    else
      [Value(t[0]) * 4 + HighPair(Fifth(t, after))] + Quad(t[0], t[1], t[2], t[3])[1..]
      + DecodedAsWritten(t[4..], after)
  }

  /** In every group the character behind it has the high bits of the second one. */
  predicate Lucky(t: seq<byte>, after: byte)
    requires AllValid(t) && after <= 128
  {
    |t| < 4 || (HighPair(Fifth(t, after)) == HighPair(t[1]) && Lucky(t[4..], after))
  }

  lemma AsWrittenStep(t: seq<byte>, after: byte)
    requires AllValid(t) && after <= 128 && |t| >= 4
    ensures AllValid(t[4..])
    ensures
      var tail, wrong: byte := Quad(t[0], t[1], t[2], t[3])[1..], Value(t[0]) * 4 + HighPair(Fifth(t, after));
      && DecodedAsWritten(t, after) == ([wrong] + tail) + DecodedAsWritten(t[4..], after)
      && Decoded(t) == ([Value(t[0]) * 4 + HighPair(t[1])] + tail) + Decoded(t[4..])
  {
    hide Valid, HighPair, Value, Fifth, Quad;
    FirstByte(t[0], t[1], t[2], t[3]);
    var q := Quad(t[0], t[1], t[2], t[3]);
    assert q == [q[0]] + q[1..];
  }

  /** Two texts of groups that differ at most in their first bytes. */
  lemma SameGroup(wrong: byte, right: byte, tail: seq<byte>, more: seq<byte>, more': seq<byte>)
    ensures ([wrong] + tail) + more == ([right] + tail) + more' <==> wrong == right && more == more'
  {
    SamePrefix([wrong] + tail, [right] + tail, more, more');
    assert [wrong] + tail == [right] + tail ==> ([wrong] + tail)[0] == ([right] + tail)[0];
  }

  /** One group of the comparison. */
  lemma AsWrittenGroup(t: seq<byte>, after: byte)
    requires AllValid(t) && after <= 128 && |t| >= 4
    ensures AllValid(t[4..])
    ensures DecodedAsWritten(t, after) == Decoded(t) <==>
      HighPair(Fifth(t, after)) == HighPair(t[1]) && DecodedAsWritten(t[4..], after) == Decoded(t[4..])
  {
    hide Valid, HighPair, Value, Fifth, Quad, Decoded, DecodedAsWritten, AllValid;
    AllFirst(t);
    AsWrittenStep(t, after);
    SameGroup(Value(t[0]) * 4 + HighPair(Fifth(t, after)), Value(t[0]) * 4 + HighPair(t[1]),
      Quad(t[0], t[1], t[2], t[3])[1..], DecodedAsWritten(t[4..], after), Decoded(t[4..]));
  }

  /** Read as written, the decoder is right on exactly the lucky texts. */
  lemma {:induction false} AsWrittenIff(t: seq<byte>, after: byte)
    requires AllValid(t) && after <= 128
    ensures DecodedAsWritten(t, after) == Decoded(t) <==> Lucky(t, after)
    decreases |t|
  {
    hide Valid, HighPair, Value, Fifth, Quad, Decoded, DecodedAsWritten, AllValid;
    if |t| >= 4 {
      AsWrittenGroup(t, after);
      AsWrittenIff(t[4..], after);
    } else {
      TooFew(t, after);
    }
  }

  lemma TooFew(t: seq<byte>, after: byte)
    requires AllValid(t) && after <= 128 && |t| < 4
    ensures DecodedAsWritten(t, after) == Decoded(t)
  {
  }

  lemma AllFirst(t: seq<byte>)
    requires AllValid(t) && |t| >= 4
    ensures Valid(t[0]) && Valid(t[1]) && Valid(t[2]) && Valid(t[3]) && AllValid(t[4..])
    ensures |Quad(t[0], t[1], t[2], t[3])| > 0
  {
    hide Valid;
  }

  lemma FirstByte(a: byte, b: byte, c: byte, d: byte)
    requires Valid(a) && Valid(b) && Valid(c) && Valid(d)
    ensures |Quad(a, b, c, d)| > 0 && Quad(a, b, c, d)[0] == Value(a) * 4 + HighPair(b)
  {
    QuadIs(a, b, c, d);
  }

  lemma SamePrefix(a: seq<byte>, b: seq<byte>, more: seq<byte>, more': seq<byte>)
    requires |a| == |b|
    ensures a + more == b + more' <==> a == b && more == more'
  {
    if a + more == b + more' {
      assert (a + more)[..|a|] == a && (b + more')[..|a|] == b;
      assert (a + more)[|a|..] == more && (b + more')[|a|..] == more';
    }
  }

  /** "TWFu", the encoding of "Man", with its NUL behind it: as written the first byte is wrong. */
  lemma AsWrittenFails()
    ensures AllValid([84, 87, 70, 117]) && Decoded([84, 87, 70, 117]) != DecodedAsWritten([84, 87, 70, 117], 0)
  {
    var t: seq<byte> := [84, 87, 70, 117];
    assert HighPair(Fifth(t, 0)) == 3 && HighPair(t[1]) == 1;
    AsWrittenIff(t, 0);
  }

  // ---------------------------------------------------------------- in characters

  const ALPHABET: string := "ABCDEFGHIJKLMNOPQRSTUVWXYZ" + "abcdefghijklmnopqrstuvwxyz" + "0123456789+/"

  /** Bit i of the input, from the top bit of its first byte; zero bits behind the end. */
  function Bit(s: seq<byte>, i: nat): (b: nat)
    ensures b < 2
  {
    if i >= 8 * |s| then 0
    else
      var x := s[i / 8];
      match i % 8
      case 0 => x / 128 % 2
      case 1 => x / 64 % 2
      case 2 => x / 32 % 2
      case 3 => x / 16 % 2
      case 4 => x / 8 % 2
      case 5 => x / 4 % 2
      case 6 => x / 2 % 2
      case _ => x % 2
  }

  /** The six bits of the input from bit i on. */
  function SixBits(s: seq<byte>, i: nat): (v: nat)
    ensures v < 64
  {
    32 * Bit(s, i) + 16 * Bit(s, i + 1) + 8 * Bit(s, i + 2) + 4 * Bit(s, i + 3) + 2 * Bit(s, i + 4) + Bit(s, i + 5)
  }

  lemma AlphabetSize()
    ensures |ALPHABET| == 64
  {
  }

  /** Character j of the encoding: '=' where no bit of the input is left. */
  function Character(s: seq<byte>, j: nat): char {
    AlphabetSize();
    if 6 * j >= 8 * |s| then '=' else ALPHABET[SixBits(s, 6 * j)]
  }

  lemma UpperCase(v: nat)
    requires v < 26
    ensures "ABCDEFGHIJKLMNOPQRSTUVWXYZ"[v] as int == 65 + v
  {
    match v
    case 0 => case 1 => case 2 => case 3 => case 4 => case 5 => case 6 => case 7 =>
    case 8 => case 9 => case 10 => case 11 => case 12 => case 13 => case 14 => case 15 =>
    case 16 => case 17 => case 18 => case 19 => case 20 => case 21 => case 22 => case 23 =>
    case 24 =>
    case _ =>
  }

  lemma LowerCase(v: nat)
    requires v < 26
    ensures "abcdefghijklmnopqrstuvwxyz"[v] as int == 97 + v
  {
    match v
    case 0 => case 1 => case 2 => case 3 => case 4 => case 5 => case 6 => case 7 =>
    case 8 => case 9 => case 10 => case 11 => case 12 => case 13 => case 14 => case 15 =>
    case 16 => case 17 => case 18 => case 19 => case 20 => case 21 => case 22 => case 23 =>
    case 24 =>
    case _ =>
  }

  lemma Numerals(v: nat)
    requires v < 12
    ensures "0123456789+/"[v] as int == if v < 10 then 48 + v else if v == 10 then 43 else 47
  {
    match v
    case 0 => case 1 => case 2 => case 3 => case 4 => case 5 => case 6 => case 7 =>
    case 8 => case 9 => case 10 =>
    case _ =>
  }

  /** The table is that string. */
  lemma LetterIs(v: sextet)
    ensures |ALPHABET| == 64 && Letter(v) == ALPHABET[v] as int
  {
    if v < 26 {
      UpperCase(v);
    } else if v < 52 {
      LowerCase(v - 26);
    } else {
      Numerals(v - 52);
    }
  }

  lemma DivMod2(x: nat, q: nat, r: nat)
    requires x == 2 * q + r && r < 2
    ensures x / 2 == q && x % 2 == r
  {
  }

  lemma DivMod4(x: nat, q: nat, r: nat)
    requires x == 4 * q + r && r < 4
    ensures x / 4 == q && x % 4 == r
  {
  }

  lemma DivMod8(x: nat, q: nat, r: nat)
    requires x == 8 * q + r && r < 8
    ensures x / 8 == q && x % 8 == r
  {
  }

  lemma DivMod16(x: nat, q: nat, r: nat)
    requires x == 16 * q + r && r < 16
    ensures x / 16 == q && x % 16 == r
  {
  }

  lemma DivMod32(x: nat, q: nat, r: nat)
    requires x == 32 * q + r && r < 32
    ensures x / 32 == q && x % 32 == r
  {
  }

  lemma DivMod64(x: nat, q: nat, r: nat)
    requires x == 64 * q + r && r < 64
    ensures x / 64 == q && x % 64 == r
  {
  }

  lemma DivMod128(x: nat, q: nat, r: nat)
    requires x == 128 * q + r && r < 128
    ensures x / 128 == q && x % 128 == r
  {
  }

  /** A byte as the sum of its bits. */
  lemma SumOfBits(x: byte) returns (b: seq<nat>)
    ensures |b| == 8 && forall i :: 0 <= i < 8 ==> b[i] < 2
    ensures x == 128 * b[7] + 64 * b[6] + 32 * b[5] + 16 * b[4] + 8 * b[3] + 4 * b[2] + 2 * b[1] + b[0]
  {
    var h1, h2, h3 := x / 2, x / 2 / 2, x / 2 / 2 / 2;
    var h4, h5, h6, h7 := h3 / 2, h3 / 2 / 2, h3 / 2 / 2 / 2, h3 / 2 / 2 / 2 / 2;
    b := [x % 2, h1 % 2, h2 % 2, h3 % 2, h4 % 2, h5 % 2, h6 % 2, h7];
  }

  /** Quotients and remainders in bits. */
  lemma BitQuotients(x: byte, b: seq<nat>)
    requires |b| == 8 && forall i :: 0 <= i < 8 ==> b[i] < 2
    requires x == 128 * b[7] + 64 * b[6] + 32 * b[5] + 16 * b[4] + 8 * b[3] + 4 * b[2] + 2 * b[1] + b[0]
    ensures x / 128 == b[7] && x / 64 == 2 * b[7] + b[6] && x / 32 == 4 * b[7] + 2 * b[6] + b[5]
    ensures x / 16 == 8 * b[7] + 4 * b[6] + 2 * b[5] + b[4]
    ensures x / 8 == 16 * b[7] + 8 * b[6] + 4 * b[5] + 2 * b[4] + b[3]
    ensures x / 4 == 32 * b[7] + 16 * b[6] + 8 * b[5] + 4 * b[4] + 2 * b[3] + b[2]
    ensures x / 2 == 64 * b[7] + 32 * b[6] + 16 * b[5] + 8 * b[4] + 4 * b[3] + 2 * b[2] + b[1]
    ensures x % 2 == b[0] && x % 4 == 2 * b[1] + b[0] && x % 16 == 8 * b[3] + 4 * b[2] + 2 * b[1] + b[0]
    ensures x % 64 == 32 * b[5] + 16 * b[4] + 8 * b[3] + 4 * b[2] + 2 * b[1] + b[0]
  {
    var r2, r3 := 2 * b[1] + b[0], 4 * b[2] + 2 * b[1] + b[0];
    var r4, r5 := 8 * b[3] + r3, 16 * b[4] + 8 * b[3] + r3;
    DivMod2(x, 64 * b[7] + 32 * b[6] + 16 * b[5] + 8 * b[4] + 4 * b[3] + 2 * b[2] + b[1], b[0]);
    DivMod4(x, 32 * b[7] + 16 * b[6] + 8 * b[5] + 4 * b[4] + 2 * b[3] + b[2], r2);
    DivMod8(x, 16 * b[7] + 8 * b[6] + 4 * b[5] + 2 * b[4] + b[3], r3);
    DivMod16(x, 8 * b[7] + 4 * b[6] + 2 * b[5] + b[4], r4);
    DivMod32(x, 4 * b[7] + 2 * b[6] + b[5], r5);
    DivMod64(x, 2 * b[7] + b[6], 32 * b[5] + r5);
    DivMod128(x, b[7], 64 * b[6] + 32 * b[5] + r5);
  }

  lemma ByteBits(x: byte)
    ensures x / 4 == 32 * (x / 128 % 2) + 16 * (x / 64 % 2) + 8 * (x / 32 % 2) + 4 * (x / 16 % 2) + 2 * (x / 8 % 2) + x / 4 % 2
    ensures x % 4 == 2 * (x / 2 % 2) + x % 2
    ensures x / 16 == 8 * (x / 128 % 2) + 4 * (x / 64 % 2) + 2 * (x / 32 % 2) + x / 16 % 2
    ensures x % 16 == 8 * (x / 8 % 2) + 4 * (x / 4 % 2) + 2 * (x / 2 % 2) + x % 2
    ensures x / 64 == 2 * (x / 128 % 2) + x / 64 % 2
    ensures x % 64 == 32 * (x / 32 % 2) + 16 * (x / 16 % 2) + 8 * (x / 8 % 2) + 4 * (x / 4 % 2) + 2 * (x / 2 % 2) + x % 2
  {
    var b := SumOfBits(x);
    BitQuotients(x, b);
    DivMod2(x / 2, 32 * b[7] + 16 * b[6] + 8 * b[5] + 4 * b[4] + 2 * b[3] + b[2], b[1]);
    DivMod2(x / 4, 16 * b[7] + 8 * b[6] + 4 * b[5] + 2 * b[4] + b[3], b[2]);
    DivMod2(x / 8, 8 * b[7] + 4 * b[6] + 2 * b[5] + b[4], b[3]);
    DivMod2(x / 16, 4 * b[7] + 2 * b[6] + b[5], b[4]);
    DivMod2(x / 32, 2 * b[7] + b[6], b[5]);
    DivMod2(x / 64, b[7], b[6]);
    DivMod2(x / 128, 0, b[7]);
  }

  lemma BitsAt(g: seq<byte>, k: nat)
    requires k < |g|
    ensures Bit(g, 8 * k) == g[k] / 128 % 2 && Bit(g, 8 * k + 1) == g[k] / 64 % 2 && Bit(g, 8 * k + 2) == g[k] / 32 % 2
    ensures Bit(g, 8 * k + 3) == g[k] / 16 % 2 && Bit(g, 8 * k + 4) == g[k] / 8 % 2 && Bit(g, 8 * k + 5) == g[k] / 4 % 2
    ensures Bit(g, 8 * k + 6) == g[k] / 2 % 2 && Bit(g, 8 * k + 7) == g[k] % 2
  {
  }

  lemma BitsBehind(g: seq<byte>)
    ensures forall i: nat {:trigger Bit(g, i)} :: i >= 8 * |g| ==> Bit(g, i) == 0
  {
  }

  /** The six bits of a group's letters in its bytes. */
  lemma GroupIndex(g: seq<byte>)
    requires 1 <= |g| <= 3
    ensures SixBits(g, 0) == g[0] / 4
    ensures SixBits(g, 6) == g[0] % 4 * 16 + if |g| > 1 then g[1] / 16 else 0
    ensures |g| > 1 ==> SixBits(g, 12) == g[1] % 16 * 4 + if |g| > 2 then g[2] / 64 else 0
    ensures |g| > 2 ==> SixBits(g, 18) == g[2] % 64
  {
    hide Bit;
    BitsBehind(g);
    BitsAt(g, 0);
    ByteBits(g[0]);
    if |g| > 1 {
      BitsAt(g, 1);
      ByteBits(g[1]);
    }
    if |g| > 2 {
      BitsAt(g, 2);
      ByteBits(g[2]);
    }
  }

  lemma GroupCharacters(g: seq<byte>, j: nat)
    requires 1 <= |g| <= 3 && j < 4
    ensures Group(g)[j] == Character(g, j) as int
  {
    hide Letter, Group, SixBits, ALPHABET;
    AlphabetSize();
    GroupIs(g);
    GroupIndex(g);
    if 6 * j < 8 * |g| {
      LetterIs(SixBits(g, 6 * j));
    }
  }

  lemma BitsApart(s: seq<byte>, i: nat)
    requires |s| > 3
    ensures i < 24 ==> Bit(s, i) == Bit(s[..3], i)
    ensures Bit(s, 24 + i) == Bit(s[3..], i)
  {
    if 24 + i < 8 * |s| {
      assert (24 + i) / 8 == 3 + i / 8 && (24 + i) % 8 == i % 8;
      assert s[3..][i / 8] == s[3 + i / 8];
    }
  }

  lemma SixApart(s: seq<byte>, i: nat)
    requires |s| > 3
    ensures i <= 18 ==> SixBits(s, i) == SixBits(s[..3], i)
    ensures SixBits(s, 24 + i) == SixBits(s[3..], i)
  {
    hide Bit;
    BitsApart(s, i);
    BitsApart(s, i + 1);
    BitsApart(s, i + 2);
    BitsApart(s, i + 3);
    BitsApart(s, i + 4);
    BitsApart(s, i + 5);
  }

  lemma CharactersApart(s: seq<byte>, j: nat)
    requires |s| > 3
    ensures j < 4 ==> Character(s, j) == Character(s[..3], j)
    ensures Character(s, 4 + j) == Character(s[3..], j)
  {
    hide SixBits, ALPHABET;
    AlphabetSize();
    SixApart(s, 6 * j);
  }

  /** The encoding, character by character. */
  lemma {:induction false} EncodedCharacters(s: seq<byte>, j: nat)
    requires j < 4 * ((|s| + 2) / 3)
    ensures |Encoded(s)| == 4 * ((|s| + 2) / 3) && Encoded(s)[j] == Character(s, j) as int
    decreases |s|
  {
    hide Group, Character;
    EncodedSize(s);
    if |s| <= 3 {
      GroupCharacters(s, j);
    } else if j < 4 {
      GroupCharacters(s[..3], j);
      CharactersApart(s, j);
    } else {
      EncodedCharacters(s[3..], j - 4);
      CharactersApart(s, j - 4);
    }
  }

  lemma EncodedWhole(s: seq<byte>, t: seq<byte>)
    requires t == Encoded(s) && |t| == 4 * ((|s| + 2) / 3)
    ensures forall j :: 0 <= j < |t| ==> t[j] == Character(s, j) as int
  {
    hide Encoded, Character;
    forall j | 0 <= j < |t|
      ensures t[j] == Character(s, j) as int
    {
      EncodedCharacters(s, j);
    }
  }

  lemma PadPlaces(l: nat)
    requires l > 0
    ensures
      var n := 4 * ((l + 2) / 3);
      && n >= 4
      && (l % 3 == 1 ==> 6 * (n - 2) >= 8 * l && 6 * (n - 1) >= 8 * l)
      && (l % 3 == 2 ==> 6 * (n - 2) < 8 * l && 6 * (n - 1) >= 8 * l)
      && (l % 3 == 0 ==> 6 * (n - 1) < 8 * l)
  {
    var m := l / 3;
    assert l == 3 * m + l % 3;
    assert (l + 2) / 3 == if l % 3 == 0 then m else m + 1;
  }

  lemma PadIff(s: seq<byte>, j: nat)
    ensures Character(s, j) == '=' <==> 6 * j >= 8 * |s|
  {
    hide ALPHABET, SixBits;
    AlphabetSize();
    LetterIs(SixBits(s, 6 * j));
    NoLetter(SixBits(s, 6 * j));
  }

  /** How it ends. */
  lemma Padding(s: seq<byte>)
    requires s != []
    ensures
      var t := Encoded(s);
      && |t| >= 4
      && (|s| % 3 == 1 ==> t[|t| - 2] == '=' as int && t[|t| - 1] == '=' as int)
      && (|s| % 3 == 2 ==> t[|t| - 2] != '=' as int && t[|t| - 1] == '=' as int)
      && (|s| % 3 == 0 ==> t[|t| - 1] != '=' as int)
  {
    hide Encoded, Character;
    var n := 4 * ((|s| + 2) / 3);
    PadPlaces(|s|);
    EncodedCharacters(s, n - 2);
    EncodedCharacters(s, n - 1);
    PadIff(s, n - 2);
    PadIff(s, n - 1);
  }

  lemma NoLetter(v: sextet)
    ensures Letter(v) != '=' as int
  {
  }

  /** What the decoder takes for a value: the place in the alphabet, and 0 for '='. */
  predicate Stands(c: byte, v: nat) {
    if c == '=' as int then v == 0 else v < |ALPHABET| && ALPHABET[v] as int == c
  }

  lemma StandsIs(c: byte, v: nat)
    ensures Stands(c, v) <==> Valid(c) && Value(c) == v
  {
    hide ALPHABET;
    AlphabetSize();
    if c != 61 && Valid(c) {
      TablesInverse(0, c);
      LetterIs(Value(c));
    }
    if v < 64 {
      LetterIs(v);
      TablesInverse(v, 0);
    }
  }

  /** A character that is neither of the alphabet nor '='. */
  ghost predicate Foreign(c: byte) {
    forall v: nat {:trigger Stands(c, v)} :: !Stands(c, v)
  }

  lemma ForeignIs(c: byte)
    ensures Foreign(c) <==> !Valid(c)
  {
    hide Stands;
    if Valid(c) {
      StandsIs(c, Value(c));
    }
    forall v: nat | Stands(c, v)
      ensures Valid(c)
    {
      StandsIs(c, v);
    }
  }

  /** Texts of whole groups are decoded one after the other, wherever there is a '='. */
  lemma {:induction false} DecodedJoin(t: seq<byte>, u: seq<byte>)
    requires AllValid(t + u) && |t| % 4 == 0
    ensures AllValid(t) && AllValid(u) && Decoded(t + u) == Decoded(t) + Decoded(u)
    decreases |t|
  {
    hide Valid, Quad;
    assert forall c :: c in t || c in u ==> c in t + u;
    if t == [] {
      assert t + u == u;
    } else {
      assert (t + u)[4..] == t[4..] + u;
      DecodedJoin(t[4..], u);
    }
  }

  /** And a group in numbers. */
  lemma DecodedGroup(t: seq<byte>, a: nat, b: nat, c: nat, d: nat)
    requires |t| == 4 && Stands(t[0], a) && Stands(t[1], b) && Stands(t[2], c) && Stands(t[3], d)
    ensures AllValid(t)
    ensures
      var n := 0x4_0000 * a + 0x1000 * b + 0x40 * c + d;
      Decoded(t) == [n / 0x1_0000 % 256] + (if t[2] != '=' as int then [n / 0x100 % 256] else [])
        + (if t[3] != '=' as int then [n % 256] else [])
  {
    hide Stands, Valid, Value;
    StandsIs(t[0], a);
    StandsIs(t[1], b);
    StandsIs(t[2], c);
    StandsIs(t[3], d);
    assert Decoded(t[4..]) == [];
    assert Decoded(t) == Quad(t[0], t[1], t[2], t[3]);
  }

  // ---------------------------------------------------------------- test vectors of the standard

  function Ascii(s: string): seq<byte> {
    seq(|s|, i requires 0 <= i < |s| => s[i] as int % 256)
  }

  /** Both directions of one vector. */
  ghost predicate Vector(plain: string, text: string) {
    var s, t := Ascii(plain), Ascii(text);
    Encoded(s) == t && AllValid(t) && Decoded(t) == s
  }

  lemma VectorGroups()
    ensures Group([102]) == [90, 103, 61, 61] && Group([102, 111]) == [90, 109, 56, 61]
    ensures Group([102, 111, 111]) == [90, 109, 57, 118] && Group([98]) == [89, 103, 61, 61]
    ensures Group([98, 97]) == [89, 109, 69, 61] && Group([98, 97, 114]) == [89, 109, 70, 121]
  {
    hide Group;
    GroupIs([102]);
    GroupIs([102, 111]);
    GroupIs([102, 111, 111]);
    GroupIs([98]);
    GroupIs([98, 97]);
    GroupIs([98, 97, 114]);
  }

  lemma VectorIs(plain: string, text: string, front: seq<byte>, g: seq<byte>)
    requires 1 <= |g| <= 3 && Ascii(plain) == front + g
    requires if front == [] then Ascii(text) == Group(g) else |front| == 3 && Ascii(text) == Group(front) + Group(g)
    ensures Vector(plain, text)
  {
    hide Ascii, Group, Valid, Quad;
    RoundTrip(Ascii(plain));
    if front == [] {
      assert front + g == g;
    } else {
      assert (front + g)[..3] == front && (front + g)[3..] == g;
    }
  }

  lemma ShortVectors()
    ensures Vector("", "") && Vector("f", "Zg==") && Vector("fo", "Zm8=")
  {
    hide Group, Encoded, Decoded, AllValid, Vector;
    VectorGroups();
    VectorNone();
    VectorIs("f", "Zg==", [], [102]);
    VectorIs("fo", "Zm8=", [], [102, 111]);
  }

  lemma MoreVectors()
    ensures Vector("foo", "Zm9v") && Vector("foob", "Zm9vYg==")
  {
    hide Group, Encoded, Decoded, AllValid, Vector;
    VectorGroups();
    VectorIs("foo", "Zm9v", [], [102, 111, 111]);
    VectorIs("foob", "Zm9vYg==", [102, 111, 111], [98]);
  }

  /** Section 10 of RFC 4648. */
  lemma Vectors()
    ensures Vector("", "") && Vector("f", "Zg==") && Vector("fo", "Zm8=") && Vector("foo", "Zm9v")
    ensures Vector("foob", "Zm9vYg==") && Vector("fooba", "Zm9vYmE=") && Vector("foobar", "Zm9vYmFy")
  {
    hide Group, Encoded, Decoded, AllValid, Vector;
    VectorGroups();
    ShortVectors();
    MoreVectors();
    VectorIs("fooba", "Zm9vYmE=", [102, 111, 111], [98, 97]);
    VectorIs("foobar", "Zm9vYmFy", [102, 111, 111], [98, 97, 114]);
  }

  lemma VectorNone()
    ensures Vector("", "")
  {
    assert Ascii("") == [];
  }
}
