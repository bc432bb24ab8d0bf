/** The S-record text that h8write reads, and the flash image it stands for. */
module SRecord {
  import opened ByteMemory

  const ERASED: byte := 0xff

  // ---------------------------------------------------------------- hexadecimal text

  predicate IsHex(c: char) {
    '0' <= c <= '9' || 'A' <= c <= 'F' || 'a' <= c <= 'f'
  }

  function Digit(c: char): (d: nat)
    ensures d < 16
  {
    if '0' <= c <= '9' then c as int - '0' as int
    else if 'A' <= c <= 'F' then c as int - 'A' as int + 10
    else if 'a' <= c <= 'f' then c as int - 'a' as int + 10
    else 0
  }

  /** What sscanf with %X makes of a string of hex digits. */
  function HexValue(s: string): nat {
    if s == "" then 0 else 16 * HexValue(s[..|s| - 1]) + Digit(s[|s| - 1])
  }

  function HexPair(s: string, at: nat): (b: byte)
    requires at + 2 <= |s|
  {
    16 * Digit(s[at]) + Digit(s[at + 1])
  }

  /** The digits, in either case. */
  lemma DigitIs(d: nat)
    requires d < 16
    ensures Digit("0123456789ABCDEF"[d]) == d && Digit("0123456789abcdef"[d]) == d
    ensures IsHex("0123456789ABCDEF"[d]) && IsHex("0123456789abcdef"[d])
  {
    match d
    case 0 => case 1 => case 2 => case 3 => case 4 => case 5 => case 6 => case 7 =>
    case 8 => case 9 => case 10 => case 11 => case 12 => case 13 => case 14 =>
    case _ =>
  }

  lemma HexPairIsValue(s: string)
    requires |s| == 2
    ensures HexValue(s) == HexPair(s, 0)
  {
    assert s[..1][..0] == "" && HexValue(s[..1]) == Digit(s[0]);
  }

  // ---------------------------------------------------------------- records

  /** S1, S2 and S3 carry data; the address has one byte more than the digit says. */
  predicate IsData(t: string) {
    |t| >= 2 && t[0] == 'S' && '1' <= t[1] <= '3'
  }

  function AddrSize(t: string): (n: nat)
    requires IsData(t)
    ensures 1 <= n <= 3
  {
    t[1] as int - '0' as int
  }

  /** Where the data digits start: after type, count and address. */
  function DataStart(t: string): nat
    requires IsData(t)
  {
    4 + (AddrSize(t) + 1) * 2
  }

  /** An int read from eight hex digits: they may spell a negative one. */
  function ToInt32(v: nat): int {
    var w := v % 0x1_0000_0000;
    if w < 0x8000_0000 then w else w - 0x1_0000_0000
  }

  predicate AllHex(s: string) {
    forall k :: 0 <= k < |s| ==> IsHex(s[k])
  }

  /** Number of data bytes: the count less the address and the checksum. */
  function DataSize(t: string): int
    requires IsData(t) && |t| >= DataStart(t)
  {
    HexPair(t, 2) - 2 - AddrSize(t)
  }

  function Address(t: string): int
    requires IsData(t) && |t| >= DataStart(t)
  {
    ToInt32(HexValue(t[4..DataStart(t)]))
  }

  function DataBytes(t: string, at: nat, n: nat): (bytes: seq<byte>)
    requires at + 2 * n <= |t|
    ensures |bytes| == n
  {
    if n == 0 then [] else DataBytes(t, at, n - 1) + [HexPair(t, at + 2 * (n - 1))]
  }

  lemma {:induction false} DataBytesAt(t: string, at: nat, n: nat, k: nat)
    requires at + 2 * n <= |t| && k < n
    ensures DataBytes(t, at, n)[k] == HexPair(t, at + 2 * k)
    decreases n
  {
    if k < n - 1 {
      DataBytesAt(t, at, n - 1, k);
    }
  }

  /** A data record holds the digits of its count, address and data. */
  predicate WellFormed(t: string) {
    IsData(t) ==>
      && |t| >= DataStart(t)
      && |t| >= DataStart(t) + 2 * DataSize(t)
      && AllHex(t[2..])
  }

  /** What becomes of a line: bytes for the image, or nothing. */
  datatype Record = Skipped | Taken(addr: nat, bytes: seq<byte>)

  /** The range test of the loop: a record must end before the last byte of the ROM. */
  predicate InRange(addr: int, size: int, startrom: nat, endrom: nat) {
    startrom <= addr && addr + size <= endrom
  }

  /** What the format says of a line. */
  function Meaning(t: string, startrom: nat, endrom: nat): Record
    requires WellFormed(t)
  {
    if IsData(t) && InRange(Address(t), DataSize(t), startrom, endrom)
    then Taken(Address(t), DataBytes(t, DataStart(t), if DataSize(t) < 0 then 0 else DataSize(t)))
    else Skipped
  }

  // ---------------------------------------------------------------- reading with sscanf

  /** sscanf with "%X": the value of the variable afterwards, given the characters and its value
      before. On hex digits it is their value, and a string that is empty leaves the variable alone;
      on other text it is up to the library, except that two characters leave the variable alone or
      spell a number of at most two digits. */
  type Scanner = (string, int) -> int

  ghost predicate ReadsHex(scan: Scanner) {
    && (forall s, old': int {:trigger scan(s, old')} :: s != "" && AllHex(s) ==> scan(s, old') == ToInt32(HexValue(s)))
    && (forall s, old': int {:trigger scan(s, old')} :: s == "" || s[0] == '\0' ==> scan(s, old') == old')
    && (forall s, old': int {:trigger scan(s, old')} :: |s| <= 2 ==> scan(s, old') == old' || -16 < scan(s, old') < 256)
  }

  lemma ShortValue(s: string)
    requires |s| <= 2
    ensures 0 <= ToInt32(HexValue(s)) < 256
  {
    if |s| == 1 {
      assert s[..0] == "";
    } else if |s| == 2 {
      HexPairIsValue(s);
    }
  }

  /** Such a library exists: one that reads nothing but hex digits. */
  lemma ScannerExists() returns (scan: Scanner)
    ensures ReadsHex(scan)
  {
    hide HexValue, ToInt32;
    scan := (s, old') => if s != "" && AllHex(s) then ToInt32(HexValue(s)) else old';
    forall s: string | |s| <= 2
      ensures 0 <= ToInt32(HexValue(s)) < 256
    {
      ShortValue(s);
    }
  }

  const BUFFER: nat := 512
  const TOKEN: nat := 256

  /** What the loop carries from line to line: the buffer, and the variables sscanf may leave as
      they were. */
  datatype Reader = Reader(buffer: string, s: int, addr: int, h: int)

  /** The buffer after fscanf has stored a token in it. */
  function Stored(buffer: string, t: string): (b: string)
    requires |t| <= TOKEN && |buffer| == BUFFER
    ensures |b| == BUFFER
  {
    t + ['\0'] + buffer[|t| + 1..]
  }

  /** n data bytes from position `at` of the buffer, and the last value of h. */
  function Scanned(scan: Scanner, b: string, at: nat, n: nat, h: int): (r: (seq<byte>, int))
    requires at + 2 * n <= |b|
    ensures |r.0| == n
  {
    if n == 0 then ([], h)
    else
      var (bytes, h') := Scanned(scan, b, at, n - 1, h);
      var last := scan(b[at + 2 * (n - 1)..at + 2 * n], h');
      (bytes + [last % 256], last)
  }

  ghost predicate Sound(r: Reader) {
    |r.buffer| == BUFFER && r.s < 256
  }

  /** The fields of a data line, as scanned from the buffer. */
  ghost function Fields(scan: Scanner, r: Reader, t: string): (f: Reader)
    requires ReadsHex(scan) && Sound(r) && |t| <= TOKEN && IsData(Stored(r.buffer, t))
    ensures Sound(f) && f.buffer == Stored(r.buffer, t) && DataStart(f.buffer) + 2 * f.s <= BUFFER
  {
    var b := Stored(r.buffer, t);
    var count := scan(b[2..4], r.s);
    assert count == r.s || count < 256;
    Reader(b, count - 2 - AddrSize(b), scan(b[4..DataStart(b)], r.addr), r.h)
  }

  /** One line: what it contributes, and what the loop carries on. */
  ghost function Read(scan: Scanner, r: Reader, t: string, startrom: nat, endrom: nat): (o: (Reader, Record))
    requires ReadsHex(scan) && Sound(r) && |t| <= TOKEN
    ensures Sound(o.0)
  {
    if !IsData(Stored(r.buffer, t)) then (r.(buffer := Stored(r.buffer, t)), Skipped)
    else
      var f := Fields(scan, r, t);
      if !InRange(f.addr, f.s, startrom, endrom) then (f, Skipped)
      else
        var (bytes, h) := Scanned(scan, f.buffer, DataStart(f.buffer), if f.s < 0 then 0 else f.s, f.h);
        (f.(h := h), Taken(f.addr, bytes))
  }

  /** What Read does, case by case. */
  lemma ReadCases(scan: Scanner, r: Reader, t: string, startrom: nat, endrom: nat)
    requires ReadsHex(scan) && Sound(r) && |t| <= TOKEN
    ensures
      var b, o := Stored(r.buffer, t), Read(scan, r, t, startrom, endrom);
      if !IsData(b) then o == (r.(buffer := b), Skipped)
      else
        var s, addr := scan(b[2..4], r.s) - 2 - AddrSize(b), scan(b[4..DataStart(b)], r.addr);
        && DataStart(b) + 2 * s <= BUFFER
        && (!InRange(addr, s, startrom, endrom) ==> o == (Reader(b, s, addr, r.h), Skipped))
        && (InRange(addr, s, startrom, endrom) ==>
              var data := Scanned(scan, b, DataStart(b), if s < 0 then 0 else s, r.h);
              o == (Reader(b, s, addr, data.1), Taken(addr, data.0)))
  {
    hide Stored, Scanned, ReadsHex;
    if IsData(Stored(r.buffer, t)) {
      var f := Fields(scan, r, t);
    }
  }

  lemma ScannedStart(scan: Scanner, b: string, at: nat, h: int)
    requires at <= |b|
    ensures Scanned(scan, b, at, 0, h) == ([], h)
  {
  }

  lemma {:induction false} ScannedStep(scan: Scanner, b: string, at: nat, n: nat, i: nat, h: int)
    requires at + 2 * n <= |b| && i < n
    ensures
      var last := scan(b[at + 2 * i..at + 2 * i + 2], Scanned(scan, b, at, i, h).1);
      Scanned(scan, b, at, n, h).0[i] == last % 256 && Scanned(scan, b, at, i + 1, h).1 == last
    decreases n
  {
    if i < n - 1 {
      ScannedStep(scan, b, at, n - 1, i, h);
    }
  }

  lemma StoredPrefix(buffer: string, t: string)
    requires |t| <= TOKEN && |buffer| == BUFFER
    ensures Stored(buffer, t)[..|t|] == t
    ensures IsData(t) ==> IsData(Stored(buffer, t)) && DataStart(Stored(buffer, t)) == DataStart(t)
    ensures IsData(Stored(buffer, t)) ==> IsData(t)
  {
  }

  lemma SamePart(b: string, t: string, i: nat, j: nat)
    requires i <= j <= |t| <= |b| && b[..|t|] == t
    ensures b[i..j] == t[i..j]
  {
    forall k | 0 <= k < j - i
      ensures b[i..j][k] == t[i..j][k]
    {
      assert b[..|t|][i + k] == t[i + k];
    }
  }

  lemma HexScanned(scan: Scanner, b: string, t: string, i: nat, j: nat, old': int)
    requires ReadsHex(scan) && 2 <= i < j <= |t| <= |b| && b[..|t|] == t && AllHex(t[2..])
    ensures b[i..j] == t[i..j] && scan(b[i..j], old') == ToInt32(HexValue(t[i..j]))
  {
    hide IsHex, HexValue, ToInt32;
    SamePart(b, t, i, j);
    forall k | 0 <= k < j - i
      ensures IsHex(t[i..j][k])
    {
      assert t[i..j][k] == t[2..][i - 2 + k];
    }
  }

  lemma PairScanned(scan: Scanner, b: string, t: string, i: nat, old': int)
    requires ReadsHex(scan) && 2 <= i && i + 2 <= |t| <= |b| && b[..|t|] == t && AllHex(t[2..])
    ensures scan(b[i..i + 2], old') == HexPair(t, i)
  {
    hide IsHex, HexValue, HexPair, ReadsHex, AllHex;
    HexScanned(scan, b, t, i, i + 2, old');
    HexPairIsValue(t[i..i + 2]);
    PairWithin(t, i, t[i..i + 2], 0);
  }

  lemma {:induction false} ScannedHex(scan: Scanner, b: string, t: string, at: nat, n: nat, h: int)
    requires ReadsHex(scan) && 2 <= at && at + 2 * n <= |t| <= |b| && b[..|t|] == t && AllHex(t[2..])
    ensures
      var r := Scanned(scan, b, at, n, h);
      r.0 == DataBytes(t, at, n) && r.1 == if n == 0 then h else HexPair(t, at + 2 * (n - 1))
    decreases n
  {
    hide HexPair, IsHex, HexValue, ReadsHex, AllHex;
    if n > 0 {
      ScannedHex(scan, b, t, at, n - 1, h);
      PairScanned(scan, b, t, at + 2 * (n - 1), Scanned(scan, b, at, n - 1, h).1);
    }
  }

  lemma HeadScanned(scan: Scanner, r: Reader, t: string)
    requires ReadsHex(scan) && Sound(r) && |t| <= TOKEN && IsData(t) && |t| >= DataStart(t) && AllHex(t[2..])
    ensures
      var b := Stored(r.buffer, t);
      && b[..|t|] == t && IsData(b) && DataStart(b) == DataStart(t)
      && scan(b[2..4], r.s) - 2 - AddrSize(b) == DataSize(t)
      && scan(b[4..DataStart(b)], r.addr) == Address(t)
  {
    hide HexPair, IsHex, HexValue, Stored, ReadsHex, AllHex, ToInt32;
    var b := Stored(r.buffer, t);
    StoredPrefix(r.buffer, t);
    PairScanned(scan, b, t, 2, r.s);
    HexScanned(scan, b, t, 4, DataStart(t), r.addr);
  }

  /** A well-formed line is read as the format says, whatever came before it. */
  lemma WellFormedRead(scan: Scanner, r: Reader, t: string, startrom: nat, endrom: nat)
    requires ReadsHex(scan) && Sound(r) && |t| <= TOKEN && WellFormed(t)
    ensures Read(scan, r, t, startrom, endrom).1 == Meaning(t, startrom, endrom)
  {
    hide HexPair, IsHex, HexValue, Stored, Scanned, ReadsHex, AllHex, Read, Fields, Address, DataSize;
    StoredPrefix(r.buffer, t);
    ReadCases(scan, r, t, startrom, endrom);
    if IsData(t) {
      HeadScanned(scan, r, t);
      ScannedHex(scan, Stored(r.buffer, t), t, DataStart(t), if DataSize(t) < 0 then 0 else DataSize(t), r.h);
    }
  }

  // ---------------------------------------------------------------- the image of a file

  predicate Tokens(tokens: seq<string>) {
    forall t :: t in tokens ==> |t| <= TOKEN
  }

  /** What the lines of a file contribute, one after the other. */
  ghost function Records(scan: Scanner, r: Reader, tokens: seq<string>, startrom: nat, endrom: nat): (o: (Reader, seq<Record>))
    requires ReadsHex(scan) && Sound(r) && Tokens(tokens)
    ensures Sound(o.0) && |o.1| == |tokens|
  {
    if tokens == [] then (r, [])
    else
      var (before, recs) := Records(scan, r, tokens[..|tokens| - 1], startrom, endrom);
      var (after, rec) := Read(scan, before, tokens[|tokens| - 1], startrom, endrom);
      (after, recs + [rec])
  }

  /** Of a well-formed file that is what the format says of each line. */
  lemma {:induction false} WellFormedFile(scan: Scanner, r: Reader, tokens: seq<string>, startrom: nat, endrom: nat, k: nat)
    requires ReadsHex(scan) && Sound(r) && Tokens(tokens) && k < |tokens| && WellFormed(tokens[k])
    ensures Records(scan, r, tokens, startrom, endrom).1[k] == Meaning(tokens[k], startrom, endrom)
    decreases tokens
  {
    hide WellFormed, Meaning, Read;
    var n := |tokens| - 1;
    if k < n {
      WellFormedFile(scan, r, tokens[..n], startrom, endrom, k);
    } else {
      WellFormedRead(scan, Records(scan, r, tokens[..n], startrom, endrom).0, tokens[n], startrom, endrom);
    }
  }

  predicate Covers(rec: Record, x: nat) {
    rec.Taken? && rec.addr <= x < rec.addr + |rec.bytes|
  }

  /** The byte that a file puts at x: the last record that covers x decides, and without one
      the flash stays erased. */
  function ImageAt(recs: seq<Record>, x: nat): byte {
    if recs == [] then 0xff
    else
      var rec := recs[|recs| - 1];
      if Covers(rec, x) then rec.bytes[x - rec.addr] else ImageAt(recs[..|recs| - 1], x)
  }

  lemma {:induction false} ImageErased(recs: seq<Record>, x: nat)
    requires forall k :: 0 <= k < |recs| ==> !Covers(recs[k], x)
    ensures ImageAt(recs, x) == 0xff
    decreases recs
  {
    hide Covers;
    if recs != [] {
      ImageErased(recs[..|recs| - 1], x);
    }
  }

  lemma {:induction false} ImageLast(recs: seq<Record>, k: nat, x: nat)
    requires k < |recs| && Covers(recs[k], x)
    requires forall m :: k < m < |recs| ==> !Covers(recs[m], x)
    ensures ImageAt(recs, x) == recs[k].bytes[x - recs[k].addr]
    decreases recs
  {
    if k < |recs| - 1 {
      ImageLast(recs[..|recs| - 1], k, x);
    }
  }

  /** A record that is taken ends before the last byte of the ROM. */
  lemma {:induction false} TakenInRange(scan: Scanner, r: Reader, tokens: seq<string>, startrom: nat, endrom: nat, k: nat)
    requires ReadsHex(scan) && Sound(r) && Tokens(tokens) && k < |tokens| && startrom <= endrom
    ensures
      var rec := Records(scan, r, tokens, startrom, endrom).1[k];
      rec.Taken? ==> startrom <= rec.addr && (rec.bytes != [] ==> rec.addr + |rec.bytes| <= endrom)
    decreases tokens
  {
    hide ReadsHex;
    var n := |tokens| - 1;
    if k < n {
      TakenInRange(scan, r, tokens[..n], startrom, endrom, k);
    }
  }

  /** The range test is one byte too strict: no file can write the last byte of the ROM. */
  lemma LastByteErased(scan: Scanner, r: Reader, tokens: seq<string>, startrom: nat, endrom: nat)
    requires ReadsHex(scan) && Sound(r) && Tokens(tokens) && startrom <= endrom
    ensures ImageAt(Records(scan, r, tokens, startrom, endrom).1, endrom) == 0xff
  {
    hide Records, ReadsHex, Tokens, ImageAt;
    var recs := Records(scan, r, tokens, startrom, endrom).1;
    forall k | 0 <= k < |recs|
      ensures !Covers(recs[k], endrom)
    {
      TakenInRange(scan, r, tokens, startrom, endrom, k);
    }
    ImageErased(recs, endrom);
  }

  // ---------------------------------------------------------------- writing records

  function HexChar(d: nat): (c: char)
    requires d < 16
    ensures IsHex(c) && Digit(c) == d
  {
    if d < 10 then d as char + '0' else (d - 10) as char + 'A'
  }

  /** n hex digits of v, most significant first. */
  function Digits(n: nat, v: nat): (s: string)
    ensures |s| == n && AllHex(s)
  {
    if n == 0 then "" else Digits(n - 1, v / 16) + [HexChar(v % 16)]
  }

  lemma {:induction false} DigitsRead(n: nat, v: nat)
    ensures HexValue(Digits(n, v)) == v % Pow16(n)
    decreases n
  {
    if n > 0 {
      var s := Digits(n, v);
      assert s[..n - 1] == Digits(n - 1, v / 16);
      DigitsRead(n - 1, v / 16);
      ModuloBlock(v, Pow16(n - 1));
    }
  }

  function Pow16(n: nat): (p: nat)
    ensures p > 0
  {
    if n == 0 then 1 else 16 * Pow16(n - 1)
  }

  lemma TwoDigits()
    ensures Pow16(2) == 256
  {
    assert Pow16(1) == 16;
  }

  lemma ModuloBlock(v: nat, p: nat)
    requires p > 0
    ensures 16 * (v / 16 % p) + v % 16 == v % (16 * p)
  {
    var q, r := v / 16 / p, v / 16 % p;
    assert v / 16 == p * q + r;
    assert v == (16 * p) * q + (16 * r + v % 16);
    Remainder(v, 16 * p, q, 16 * r + v % 16);
  }

  lemma Remainder(v: nat, m: nat, q: nat, r: nat)
    requires m > 0 && v == m * q + r && r < m
    ensures v % m == r
  {
    var d := v / m - q;
    assert m * d == r - v % m;
    assert d == 0 by {
      assert d >= 1 ==> m * d >= m;
      assert d <= -1 ==> m * d + m <= 0;
    }
  }

  function DataText(data: seq<byte>): (s: string)
    ensures |s| == 2 * |data| && AllHex(s)
  {
    if data == [] then "" else DataText(data[..|data| - 1]) + Digits(2, data[|data| - 1])
  }

  lemma TwoRead(b: byte)
    ensures HexPair(Digits(2, b), 0) == b
  {
    hide HexPair, Digits;
    DigitsRead(2, b);
    TwoDigits();
    HexPairIsValue(Digits(2, b));
  }

  lemma PairWithin(t: string, at: nat, s: string, k: nat)
    requires at + |s| <= |t| && t[at..at + |s|] == s && k + 2 <= |s|
    ensures HexPair(t, at + k) == HexPair(s, k)
  {
    assert t[at + k] == s[k] && t[at + k + 1] == s[k + 1];
  }

  lemma {:induction false} DataTextRead(data: seq<byte>, k: nat)
    requires k < |data|
    ensures HexPair(DataText(data), 2 * k) == data[k]
    decreases data
  {
    hide HexPair, Digits;
    var s, init, b := DataText(data), data[..|data| - 1], data[|data| - 1];
    assert s == DataText(init) + Digits(2, b);
    if k < |data| - 1 {
      DataTextRead(init, k);
      PairWithin(s, 0, DataText(init), 2 * k);
    } else {
      TwoRead(b);
      PairWithin(s, 2 * k, Digits(2, b), 0);
    }
  }

  /** A record as the format lays it out; the program does not look at the checksum. */
  function RecordText(size: nat, addr: nat, data: seq<byte>, checksum: byte): string
    requires 1 <= size <= 3 && |data| + size + 2 < 256
  {
    "S" + [size as char + '0'] + Digits(2, |data| + size + 2) + Digits((size + 1) * 2, addr) + DataText(data)
      + Digits(2, checksum)
  }

  lemma RecordParts(size: nat, addr: nat, data: seq<byte>, checksum: byte)
    requires 1 <= size <= 3 && |data| + size + 2 < 256
    ensures
      var t, n := RecordText(size, addr, data, checksum), (size + 1) * 2;
      && |t| == 6 + n + 2 * |data| && t[0] == 'S' && t[1] == size as char + '0'
      && t[2..4] == Digits(2, |data| + size + 2) && t[4..4 + n] == Digits(n, addr)
      && t[4 + n..4 + n + 2 * |data|] == DataText(data) && AllHex(t[2..])
  {
    hide Digits, DataText, IsHex;
    var t, n := RecordText(size, addr, data, checksum), (size + 1) * 2;
    var body := Digits(2, |data| + size + 2) + Digits(n, addr) + DataText(data) + Digits(2, checksum);
    assert t[2..] == body;
    assert t[4..4 + n] == body[2..2 + n] == Digits(n, addr);
    assert t[4 + n..4 + n + 2 * |data|] == body[2 + n..2 + n + 2 * |data|] == DataText(data);
  }

  /** The token that fscanf delivers for a line of text: at most 256 characters. */
  function First(text: string): (t: string)
    ensures |t| <= TOKEN
  {
    if |text| <= TOKEN then text else text[..TOKEN]
  }

  lemma FirstKeeps(text: string, i: nat, j: nat)
    requires i <= j <= |text|
    ensures |First(text)| == if |text| <= TOKEN then |text| else TOKEN
    ensures j <= TOKEN ==> First(text)[i..j] == text[i..j]
  {
  }

  lemma RecordHead(size: nat, addr: nat, data: seq<byte>, checksum: byte)
    requires 1 <= size <= 3 && |data| + size + 2 < 256
    requires addr < Pow16((size + 1) * 2) && addr < 0x8000_0000
    ensures
      var t := First(RecordText(size, addr, data, checksum));
      && IsData(t) && DataStart(t) == 4 + (size + 1) * 2 <= |t|
      && Address(t) == addr && DataSize(t) == |data| && AllHex(t[2..])
  {
    hide HexValue, Digits, DataText, RecordText, IsHex, Pow16, HexPair;
    var text, n := RecordText(size, addr, data, checksum), (size + 1) * 2;
    var t := First(text);
    RecordParts(size, addr, data, checksum);
    assert t[2..4] == text[2..4] && t[4..4 + n] == text[4..4 + n];
    assert forall k :: 0 <= k < |t[2..]| ==> t[2..][k] == text[2..][k];
    TwoRead(|data| + size + 2);
    PairWithin(t, 2, Digits(2, |data| + size + 2), 0);
    DigitsRead(n, addr);
    Remainder(addr, Pow16(n), 0, addr);
  }

  lemma PairBack(t: string, at: nat, data: seq<byte>, k: nat, i: nat)
    requires i < k <= |data| && at + 2 * k <= |t| && t[at..at + 2 * k] == DataText(data)[..2 * k]
    ensures HexPair(t, at + 2 * i) == data[i]
  {
    hide DataText, Digit, AllHex;
    var all, x := DataText(data), 2 * i;
    DataTextRead(data, i);
    assert x + 1 < 2 * k <= |all|;
    assert t[at..at + 2 * k][x] == all[x] && t[at..at + 2 * k][x + 1] == all[x + 1];
  }

  lemma DataBack(t: string, at: nat, data: seq<byte>, k: nat)
    requires k <= |data| && at + 2 * k <= |t| && t[at..at + 2 * k] == DataText(data)[..2 * k]
    ensures DataBytes(t, at, k) == data[..k]
    ensures forall i :: 0 <= i < k ==> HexPair(t, at + 2 * i) == data[i]
  {
    hide DataText, HexPair, DataBytes;
    forall i | 0 <= i < k
      ensures DataBytes(t, at, k)[i] == HexPair(t, at + 2 * i) == data[i]
    {
      DataBytesAt(t, at, k, i);
      PairBack(t, at, data, k, i);
    }
  }

  /** The number of data bytes that fit a token. */
  function Fitting(size: nat): (k: nat)
    requires 1 <= size <= 3
    ensures 4 + (size + 1) * 2 + 2 * k == TOKEN
  {
    125 - size
  }

  lemma {:induction false} ScannedSplit(scan: Scanner, b: string, at: nat, k: nat, n: nat, h: int)
    requires at + 2 * (k + n) <= |b|
    ensures
      var front := Scanned(scan, b, at, k, h);
      var back := Scanned(scan, b, at + 2 * k, n, front.1);
      Scanned(scan, b, at, k + n, h) == (front.0 + back.0, back.1)
    decreases n
  {
    var front := Scanned(scan, b, at, k, h);
    if n == 0 {
      assert front.0 + [] == front.0;
    } else {
      ScannedSplit(scan, b, at, k, n - 1, h);
      var back := Scanned(scan, b, at + 2 * k, n - 1, front.1);
      var last := scan(b[at + 2 * (k + n - 1)..at + 2 * (k + n)], back.1);
      assert (front.0 + back.0) + [last % 256] == front.0 + (back.0 + [last % 256]);
    }
  }

  lemma {:induction false} ScannedSame(scan: Scanner, b: string, i: nat, c: string, j: nat, n: nat, h: int)
    requires i + 2 * n <= |b| && j + 2 * n <= |c| && b[i..i + 2 * n] == c[j..j + 2 * n]
    ensures Scanned(scan, b, i, n, h) == Scanned(scan, c, j, n, h)
    decreases n
  {
    if n > 0 {
      var m := 2 * (n - 1);
      assert b[i..i + m] == b[i..i + 2 * n][..m] && c[j..j + m] == c[j..j + 2 * n][..m];
      assert b[i + m..i + 2 * n] == b[i..i + 2 * n][m..] && c[j + m..j + 2 * n] == c[j..j + 2 * n][m..];
      ScannedSame(scan, b, i, c, j, n - 1, h);
    }
  }

  /** What the program takes for the data bytes behind the cut: it scans the NUL that ends the
      token, and then whatever the buffer held. */
  ghost function Tail(scan: Scanner, buffer: string, data: seq<byte>, k: nat): (bytes: seq<byte>)
    requires |buffer| == BUFFER && 0 < k < |data| <= k + 128
    ensures |bytes| == |data| - k
  {
    Scanned(scan, ['\0'] + buffer[TOKEN + 1..], 0, |data| - k, data[k - 1] as int).0
  }

  lemma TailScanned(scan: Scanner, buffer: string, t: string, data: seq<byte>, k: nat)
    requires |buffer| == BUFFER && |t| == TOKEN && 0 < k < |data| <= k + 128
    ensures Scanned(scan, Stored(buffer, t), TOKEN, |data| - k, data[k - 1] as int).0 == Tail(scan, buffer, data, k)
  {
    hide Scanned;
    var b, c, n := Stored(buffer, t), ['\0'] + buffer[TOKEN + 1..], |data| - k;
    assert b[TOKEN..] == c;
    assert b[TOKEN..TOKEN + 2 * n] == c[0..2 * n];
    ScannedSame(scan, b, TOKEN, c, 0, n, data[k - 1] as int);
  }

  lemma CutScanned(scan: Scanner, buffer: string, t: string, at: nat, data: seq<byte>, k: nat, h: int)
    requires ReadsHex(scan) && |buffer| == BUFFER && |t| == TOKEN && AllHex(t[2..])
    requires 2 <= at && at + 2 * k == TOKEN && 0 < k < |data| <= k + 128
    requires t[at..TOKEN] == DataText(data)[..2 * k]
    ensures Scanned(scan, Stored(buffer, t), at, |data|, h).0 == data[..k] + Tail(scan, buffer, data, k)
  {
    hide Scanned, Stored, Tail, HexPair, ReadsHex, AllHex, DataText, DataBytes;
    StoredPrefix(buffer, t);
    ScannedSplit(scan, Stored(buffer, t), at, k, |data| - k, h);
    ScannedHex(scan, Stored(buffer, t), t, at, k, h);
    DataBack(t, at, data, k);
    TailScanned(scan, buffer, t, data, k);
  }

  /** A record that was written is well formed as a token exactly when fscanf does not cut its
      data, and then means what it says. */
  lemma RecordMeans(size: nat, addr: nat, data: seq<byte>, checksum: byte, startrom: nat, endrom: nat)
    requires 1 <= size <= 3 && |data| + size + 2 < 256
    requires addr < Pow16((size + 1) * 2) && addr < 0x8000_0000
    ensures
      var t := First(RecordText(size, addr, data, checksum));
      && (WellFormed(t) <==> |data| <= Fitting(size))
      && (WellFormed(t) ==>
            Meaning(t, startrom, endrom) == if InRange(addr, |data|, startrom, endrom) then Taken(addr, data) else Skipped)
  {
    hide DataText, RecordText, Address, DataSize, IsData, AllHex, First, DataBytes;
    var text, at := RecordText(size, addr, data, checksum), 4 + (size + 1) * 2;
    RecordParts(size, addr, data, checksum);
    RecordHead(size, addr, data, checksum);
    FirstKeeps(text, at, at + 2 * |data|);
    if |data| <= Fitting(size) {
      assert DataText(data)[..2 * |data|] == DataText(data);
      DataBack(First(text), at, data, |data|);
    }
  }

  /** What the program makes of a record that was written, whatever came before it: with up to
      125 bytes of data and address digits, what it says; of a longer one fscanf cuts off data, and
      the bytes behind the cut come from the rest of the buffer. */
  lemma RecordRead(scan: Scanner, r: Reader, size: nat, addr: nat, data: seq<byte>, checksum: byte, startrom: nat, endrom: nat)
    requires ReadsHex(scan) && Sound(r) && 1 <= size <= 3 && |data| + size + 2 < 256
    requires addr < Pow16((size + 1) * 2) && addr < 0x8000_0000
    ensures
      var t, k := First(RecordText(size, addr, data, checksum)), Fitting(size);
      Read(scan, r, t, startrom, endrom).1 ==
        if !InRange(addr, |data|, startrom, endrom) then Skipped
        else if |data| <= k then Taken(addr, data)
        else Taken(addr, data[..k] + Tail(scan, r.buffer, data, k))
  {
    hide DataText, RecordText, Address, DataSize, AllHex, First, Read, Fields, Stored, Scanned, ReadsHex, Tail, DataBytes,
      WellFormed, Meaning;
    var text, at, k := RecordText(size, addr, data, checksum), 4 + (size + 1) * 2, Fitting(size);
    var t := First(text);
    if |data| <= k {
      RecordMeans(size, addr, data, checksum, startrom, endrom);
      WellFormedRead(scan, r, t, startrom, endrom);
    } else {
      RecordParts(size, addr, data, checksum);
      RecordHead(size, addr, data, checksum);
      HeadScanned(scan, r, t);
      ReadCases(scan, r, t, startrom, endrom);
      FirstKeeps(text, at, TOKEN);
      assert t[at..TOKEN] == text[at..at + 2 * |data|][..2 * k];
      CutScanned(scan, r.buffer, t, at, data, k, r.h);
    }
  }

  /** The first byte behind the cut is the last one before it, and the second one is spelled by
      characters that no token reaches. */
  lemma TailStart(scan: Scanner, buffer: string, data: seq<byte>, k: nat)
    requires ReadsHex(scan) && |buffer| == BUFFER && 0 < k < |data| <= k + 128
    ensures Tail(scan, buffer, data, k)[0] == data[k - 1]
    ensures |data| > k + 1 ==> Tail(scan, buffer, data, k)[1] == scan(buffer[TOKEN + 2..TOKEN + 4], data[k - 1] as int) % 256
  {
    hide Scanned;
    var c, n, h: int := ['\0'] + buffer[TOKEN + 1..], |data| - k, data[k - 1] as int;
    ScannedStart(scan, c, 0, h);
    ScannedStep(scan, c, 0, n, 0, h);
    assert c[0..2][0] == '\0';
    if n > 1 {
      ScannedStep(scan, c, 0, n, 1, h);
      assert c[2..4] == buffer[TOKEN + 2..TOKEN + 4];
    }
  }

  lemma SpelledTwice(scan: Scanner, c: char, old': int)
    requires ReadsHex(scan) && (c == '0' || c == '1')
    ensures scan([c, c], old') == if c == '0' then 0 else 17
  {
    assert [c, c][..1][..0] == "" && HexValue([c, c][..1]) == Digit(c);
  }

  lemma CutRight(scan: Scanner, buffer: string, data: seq<byte>, k: nat)
    requires ReadsHex(scan) && |buffer| == BUFFER && 0 < k < |data| <= k + 128
    ensures data[..k] + Tail(scan, buffer, data, k) == data <==> Tail(scan, buffer, data, k) == data[k..]
    ensures Tail(scan, buffer, data, k) == data[k..] ==> data[k] == data[k - 1]
    ensures |data| == k + 1 && data[k] == data[k - 1] ==> Tail(scan, buffer, data, k) == data[k..]
  {
    hide ReadsHex, Tail;
    var tail := Tail(scan, buffer, data, k);
    TailStart(scan, buffer, data, k);
    assert data[..k] + data[k..] == data;
    assert (data[..k] + tail)[k..] == tail;
    assert data[k..][0] == data[k];
  }

  /** A record inside the ROM that fscanf cuts is read right exactly when the rest of the buffer
      spells the bytes behind the cut; never when the first of them differs from the byte before. */
  lemma CutReadRight(scan: Scanner, r: Reader, size: nat, addr: nat, data: seq<byte>, checksum: byte, startrom: nat, endrom: nat)
    requires ReadsHex(scan) && Sound(r) && 1 <= size <= 3 && |data| + size + 2 < 256
    requires addr < Pow16((size + 1) * 2) && addr < 0x8000_0000
    requires InRange(addr, |data|, startrom, endrom) && |data| > Fitting(size)
    ensures
      var rec, k := Read(scan, r, First(RecordText(size, addr, data, checksum)), startrom, endrom).1, Fitting(size);
      && (rec == Taken(addr, data) <==> Tail(scan, r.buffer, data, k) == data[k..])
      && (data[k] != data[k - 1] ==> rec != Taken(addr, data))
  {
    hide RecordText, First, Read, Tail, ReadsHex;
    RecordRead(scan, r, size, addr, data, checksum, startrom, endrom);
    CutRight(scan, r.buffer, data, Fitting(size));
  }

  /** A buffer that spells the second byte behind the cut wrong. */
  lemma WrongTail(scan: Scanner, data: seq<byte>, k: nat) returns (r: Reader)
    requires ReadsHex(scan) && 0 < k && k + 2 <= |data| <= k + 128
    ensures Sound(r) && Tail(scan, r.buffer, data, k) != data[k..]
  {
    hide ReadsHex, Tail;
    var c := if data[k + 1] == 0 then '1' else '0';
    r := Reader(seq(BUFFER, _ => c), 0, 0, 0);
    TailStart(scan, r.buffer, data, k);
    SpelledTwice(scan, c, data[k - 1] as int);
    assert r.buffer[TOKEN + 2..TOKEN + 4] == [c, c];
    assert data[k..][1] == data[k + 1];
  }

  /** The program has read the record right. */
  ghost predicate ReadRight(scan: Scanner, r: Reader, size: nat, addr: nat, data: seq<byte>, checksum: byte, startrom: nat, endrom: nat)
    requires ReadsHex(scan) && Sound(r) && 1 <= size <= 3 && |data| + size + 2 < 256
  {
    Read(scan, r, First(RecordText(size, addr, data, checksum)), startrom, endrom).1 == Taken(addr, data)
  }

  lemma RightIf(scan: Scanner, r: Reader, size: nat, addr: nat, data: seq<byte>, checksum: byte, startrom: nat, endrom: nat)
    requires ReadsHex(scan) && Sound(r) && 1 <= size <= 3 && |data| + size + 2 < 256
    requires addr < Pow16((size + 1) * 2) && addr < 0x8000_0000 && InRange(addr, |data|, startrom, endrom)
    ensures
      var k := Fitting(size);
      |data| <= k || (|data| == k + 1 && data[k] == data[k - 1]) ==>
        ReadRight(scan, r, size, addr, data, checksum, startrom, endrom)
  {
    hide RecordText, First, Read, Tail, ReadsHex;
    RecordRead(scan, r, size, addr, data, checksum, startrom, endrom);
    if |data| == Fitting(size) + 1 {
      CutRight(scan, r.buffer, data, Fitting(size));
    }
  }

  lemma WrongReader(scan: Scanner, size: nat, addr: nat, data: seq<byte>, checksum: byte, startrom: nat, endrom: nat) returns (r: Reader)
    requires ReadsHex(scan) && 1 <= size <= 3 && |data| + size + 2 < 256
    requires addr < Pow16((size + 1) * 2) && addr < 0x8000_0000 && InRange(addr, |data|, startrom, endrom)
    requires |data| > Fitting(size) && (|data| == Fitting(size) + 1 ==> data[Fitting(size)] != data[Fitting(size) - 1])
    ensures Sound(r) && !ReadRight(scan, r, size, addr, data, checksum, startrom, endrom)
  {
    hide RecordText, First, Read, Tail, ReadsHex;
    if |data| == Fitting(size) + 1 {
      r := Reader(seq(BUFFER, _ => '0'), 0, 0, 0);
    } else {
      r := WrongTail(scan, data, Fitting(size));
    }
    CutReadRight(scan, r, size, addr, data, checksum, startrom, endrom);
  }

  /** A record inside the ROM is read right whatever came before it exactly when fscanf does not
      cut its data, or cuts off one byte that is the same as the byte before it. */
  lemma RightAlways(scan: Scanner, size: nat, addr: nat, data: seq<byte>, checksum: byte, startrom: nat, endrom: nat)
    requires ReadsHex(scan) && 1 <= size <= 3 && |data| + size + 2 < 256
    requires addr < Pow16((size + 1) * 2) && addr < 0x8000_0000 && InRange(addr, |data|, startrom, endrom)
    ensures
      var k := Fitting(size);
      (forall r :: Sound(r) ==> ReadRight(scan, r, size, addr, data, checksum, startrom, endrom)) <==>
        |data| <= k || (|data| == k + 1 && data[k] == data[k - 1])
  {
    hide ReadsHex, Sound, ReadRight;
    var k := Fitting(size);
    if |data| <= k || (|data| == k + 1 && data[k] == data[k - 1]) {
      forall r | Sound(r)
        ensures ReadRight(scan, r, size, addr, data, checksum, startrom, endrom)
      {
        RightIf(scan, r, size, addr, data, checksum, startrom, endrom);
      }
    } else {
      var r := WrongReader(scan, size, addr, data, checksum, startrom, endrom);
    }
  }

  /** No token reaches the end of the buffer. */
  lemma {:induction false} StaleStays(scan: Scanner, r: Reader, tokens: seq<string>, startrom: nat, endrom: nat)
    requires ReadsHex(scan) && Sound(r) && Tokens(tokens)
    ensures Records(scan, r, tokens, startrom, endrom).0.buffer[TOKEN + 1..] == r.buffer[TOKEN + 1..]
    decreases tokens
  {
    hide ReadsHex, IsData, InRange, Fields, Scanned, Read;
    if tokens != [] {
      var n := |tokens| - 1;
      var before := Records(scan, r, tokens[..n], startrom, endrom).0;
      StaleStays(scan, r, tokens[..n], startrom, endrom);
      ReadCases(scan, before, tokens[n], startrom, endrom);
    }
  }

  /** So in any file, among whatever other lines, a cut record gets its last bytes from what the
      buffer held at the start. */
  lemma {:induction false} FileRecord(scan: Scanner, r: Reader, tokens: seq<string>, startrom: nat, endrom: nat, i: nat,
                                      size: nat, addr: nat, data: seq<byte>, checksum: byte)
    requires ReadsHex(scan) && Sound(r) && Tokens(tokens) && i < |tokens|
    requires 1 <= size <= 3 && |data| + size + 2 < 256 && addr < Pow16((size + 1) * 2) && addr < 0x8000_0000
    requires tokens[i] == First(RecordText(size, addr, data, checksum))
    ensures
      var k := Fitting(size);
      Records(scan, r, tokens, startrom, endrom).1[i] ==
        if !InRange(addr, |data|, startrom, endrom) then Skipped
        else if |data| <= k then Taken(addr, data)
        else Taken(addr, data[..k] + Tail(scan, r.buffer, data, k))
    decreases tokens
  {
    hide ReadsHex, Read, RecordText, First, Pow16, Scanned, InRange;
    var n := |tokens| - 1;
    if i < n {
      FileRecord(scan, r, tokens[..n], startrom, endrom, i, size, addr, data, checksum);
    } else {
      StaleStays(scan, r, tokens[..n], startrom, endrom);
      RecordRead(scan, Records(scan, r, tokens[..n], startrom, endrom).0, size, addr, data, checksum, startrom, endrom);
    }
  }

  /** 124 zeros and a one: read as 125 zeros, whatever came before. */
  lemma MisreadExample(scan: Scanner, r: Reader, endrom: nat)
    requires ReadsHex(scan) && Sound(r) && endrom >= 125
    ensures
      var zeros: seq<byte> := seq(124, _ => 0);
      Read(scan, r, First(RecordText(1, 0, zeros + [1], 0x7e)), 0, endrom).1 == Taken(0, zeros + [0])
  {
    hide RecordText, First, Read, Tail, ReadsHex, Pow16;
    var zeros: seq<byte> := seq(124, _ => 0);
    var data := zeros + [1];
    FourDigits();
    RecordRead(scan, r, 1, 0, data, 0x7e, 0, endrom);
    TailStart(scan, r.buffer, data, 124);
    assert Tail(scan, r.buffer, data, 124) == [0];
    assert data[..124] == zeros;
  }

  /** A line of any other type, S0, S5, S7, S8 and S9 among them, or of none, contributes nothing and
      changes nothing but the buffer. */
  lemma OtherSkipped(scan: Scanner, r: Reader, t: string, startrom: nat, endrom: nat)
    requires ReadsHex(scan) && Sound(r) && |t| <= TOKEN
    requires |t| < 2 || t[0] != 'S' || t[1] !in {'1', '2', '3'}
    ensures Read(scan, r, t, startrom, endrom) == (r.(buffer := Stored(r.buffer, t)), Skipped)
  {
    hide Stored, ReadsHex;
    StoredPrefix(r.buffer, t);
  }

  /** What is left of a longer line comes as tokens of their own, and is skipped. */
  lemma RestSkipped(size: nat, addr: nat, data: seq<byte>, checksum: byte, k: nat, m: nat, startrom: nat, endrom: nat)
    requires 1 <= size <= 3 && |data| + size + 2 < 256
    requires TOKEN <= k < m <= |RecordText(size, addr, data, checksum)|
    ensures
      var rest := RecordText(size, addr, data, checksum)[k..m];
      WellFormed(rest) && Meaning(rest, startrom, endrom) == Skipped
  {
    hide Digits, DataText, RecordText;
    var text := RecordText(size, addr, data, checksum);
    RecordParts(size, addr, data, checksum);
    assert text[k..m][0] == text[2..][k - 2] && IsHex(text[2..][k - 2]);
  }

  /** A record that lies in the ROM is skipped exactly when it reaches the last byte. */
  lemma LastByteSkipped(scan: Scanner, r: Reader, size: nat, addr: nat, data: seq<byte>, checksum: byte, startrom: nat, endrom: nat)
    requires ReadsHex(scan) && Sound(r) && 1 <= size <= 3 && |data| + size + 2 < 256
    requires addr < Pow16((size + 1) * 2) && addr < 0x8000_0000
    requires data != [] && startrom <= addr && addr + |data| <= endrom + 1
    ensures Read(scan, r, First(RecordText(size, addr, data, checksum)), startrom, endrom).1 == Skipped <==>
      addr + |data| == endrom + 1
  {
    hide RecordText, First, Read, Tail;
    RecordRead(scan, r, size, addr, data, checksum, startrom, endrom);
  }

  /** For a ROM of 32 KiB: "S1047FFFAACF", one byte for its last address, is skipped. */
  lemma LastByteExample(scan: Scanner, r: Reader)
    requires ReadsHex(scan) && Sound(r)
    ensures Read(scan, r, "S1047FFFAACF", 0, 0x7fff).1 == Skipped
  {
    hide RecordText, Read;
    ExampleText();
    FourDigits();
    LastByteSkipped(scan, r, 1, 0x7fff, [0xaa], 0xcf, 0, 0x7fff);
  }

  lemma ExampleText()
    ensures RecordText(1, 0x7fff, [0xaa], 0xcf) == "S1047FFFAACF"
  {
    hide Digits, DataText;
    ExampleDigits();
    OneByteText(0xaa);
    assert "S" + ['1'] + "04" + "7FFF" + "AA" + "CF" == "S1047FFFAACF";
  }

  /** One record of each kind, in characters. */
  lemma Examples()
    ensures RecordText(1, 0x7ffe, [0xaa], 0xd4) == "S1047FFEAAD4"
    ensures RecordText(2, 0x1_0000, [0x0a], 0xef) == "S2050100000AEF"
    ensures RecordText(3, 0x100_0000, [0x0a], 0xee) == "S306010000000AEE"
  {
    hide Digits, DataText;
    MorePairs();
    MoreAddresses();
    OneByteText(0xaa);
    OneByteText(0x0a);
    assert "S" + ['1'] + "04" + "7FFE" + "AA" + "D4" == "S1047FFEAAD4";
    assert "S" + ['2'] + "05" + "010000" + "0A" + "EF" == "S2050100000AEF";
    assert "S" + ['3'] + "06" + "01000000" + "0A" + "EE" == "S306010000000AEE";
  }

  lemma MorePairs()
    ensures Digits(2, 4) == "04" && Digits(2, 5) == "05" && Digits(2, 6) == "06"
    ensures Digits(2, 0xaa) == "AA" && Digits(2, 0x0a) == "0A" && Digits(2, 0xd4) == "D4" && Digits(2, 0xef) == "EF" && Digits(2, 0xee) == "EE"
  {
    hide Digits;
    PairText(4);
    PairText(5);
    PairText(6);
    PairText(0xaa);
    PairText(0x0a);
    PairText(0xd4);
    PairText(0xef);
    PairText(0xee);
  }

  lemma MoreAddresses()
    ensures Digits(4, 0x7ffe) == "7FFE" && Digits(6, 0x1_0000) == "010000" && Digits(8, 0x100_0000) == "01000000"
  {
    hide Digits;
    PairText(0x7f);
    DigitsMore(2, 0x7ff);
    DigitsMore(3, 0x7ffe);
    PairText(1);
    DigitsMore(2, 0x10);
    DigitsMore(3, 0x100);
    DigitsMore(4, 0x1000);
    DigitsMore(5, 0x1_0000);
    DigitsMore(6, 0x10_0000);
    DigitsMore(7, 0x100_0000);
  }

  lemma OneByteText(b: byte)
    ensures DataText([b]) == Digits(2, b)
  {
    hide Digits;
    assert DataText([b][..0]) == "";
  }

  lemma DigitsMore(n: nat, v: nat)
    ensures Digits(0, v) == "" && Digits(n + 1, v) == Digits(n, v / 16) + [HexChar(v % 16)]
  {
  }

  lemma PairText(v: byte)
    ensures Digits(2, v) == [HexChar(v / 16), HexChar(v % 16)]
  {
    hide Digits;
    DigitsMore(1, v);
    DigitsMore(0, v / 16);
  }

  lemma ExampleDigits()
    ensures Digits(2, 4) == "04" && Digits(4, 0x7fff) == "7FFF" && Digits(2, 0xaa) == "AA" && Digits(2, 0xcf) == "CF"
  {
    hide Digits;
    PairText(4);
    PairText(0xaa);
    PairText(0xcf);
    PairText(0x7f);
    DigitsMore(2, 0x7ff);
    DigitsMore(3, 0x7fff);
  }

  lemma FourDigits()
    ensures Pow16(4) == 0x1_0000
  {
    TwoDigits();
    assert Pow16(3) == 0x1000;
  }
}
