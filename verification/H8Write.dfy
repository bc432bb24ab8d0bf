/** The part of h8write that turns an S-record file into flash writes, for the CPUs with a boot
    protocol: clear the buffers, load the records, send the dirty pages. */
module H8Write {
  import opened ByteMemory
  import opened Bits
  import opened Checksum
  import opened SRecord
  import opened TextFile
  import opened Flash

  lemma PagesFill(endrom: nat, bits: nat)
    requires (endrom + 1) % Pow2(bits) == 0
    ensures PageStart(PageOf(endrom, bits) + 1, Pow2(bits)) == endrom + 1
  {
    hide Pow2;
    Fill(endrom, Pow2(bits));
  }

  lemma Fill(n: nat, d: nat)
    requires d > 0 && (n + 1) % d == 0
    ensures PageStart(Quot(n, d) + 1, d) == n + 1
  {
    var k, q := (n + 1) / d, n / d;
    assert d * k == n + 1 && d * q + n % d == n;
    Between(d, k, q, n % d);
    assert (q + 1) * d == d * (q + 1);
  }

  lemma Between(d: nat, k: nat, q: nat, r: nat)
    requires r < d && d * k == d * q + r + 1
    ensures d * k == d * (q + 1)
  {
    var g := k - q;
    assert d * g == r + 1;
    assert g <= 0 ==> d * g <= 0;
    assert g >= 2 ==> d * g >= 2 * d;
    assert g == 1;
  }

  /** Whatever the page size, the pages of a ROM that fits the buffer lie in it, and their
      addresses in the ROM. */
  lemma PagesInMemory(endrom: nat, bits: nat, pagesize: nat, i: nat)
    requires Writer.Usable(endrom, pagesize, bits) && i <= PageOf(endrom, bits)
    ensures PageStart(i + 1, pagesize) == PageStart(i, pagesize) + pagesize <= ROM_SIZE
    ensures PageStart(i, Pow2(bits)) <= endrom < ROM_SIZE
  {
    hide Pow2;
    var p, k, q := Pow2(bits), Pow2(19 - bits), PageOf(endrom, bits);
    Pow2Sum(19 - bits, bits);
    Nineteen();
    Below(endrom, p, k);
    Products(i, q, k, p, pagesize);
    OnPage(endrom, bits);
  }

  lemma Nineteen()
    ensures Pow2(19) == ROM_SIZE
  {
    Pow2At32();
    Pow2Sum(16, 3);
    assert Pow2(3) == 8;
  }

  lemma Below(x: nat, p: nat, k: nat)
    requires p > 0 && x < k * p
    ensures Quot(x, p) < k
  {
    var d := x / p - k;
    assert p * d == x - x % p - k * p;
    assert d >= 0 ==> p * d >= 0;
  }

  lemma Products(i: nat, q: nat, k: nat, p: nat, size: nat)
    requires i <= q < k && size <= p
    ensures PageStart(i + 1, size) == PageStart(i, size) + size <= k * p
    ensures PageStart(i, p) <= PageStart(q, p)
  {
    assert (i + 1) * size == i * size + size;
    ProductMonotone(size, p, i + 1);
    assert (i + 1) * size == size * (i + 1) && (i + 1) * p == p * (i + 1);
    ProductMonotone(i + 1, k, p);
    ProductMonotone(i, q, p);
  }

  lemma ProductMonotone(a: nat, b: nat, c: nat)
    requires a <= b
    ensures a * c <= b * c
  {
    assert (b - a) * c == b * c - a * c;
  }

  lemma OnPage(x: nat, bits: nat)
    ensures PageStart(PageOf(x, bits), Pow2(bits)) <= x < PageStart(PageOf(x, bits), Pow2(bits)) + Pow2(bits)
  {
    hide Pow2;
    OnPage'(x, Pow2(bits));
  }

  lemma OnPage'(x: nat, d: nat)
    requires d > 0
    ensures PageStart(Quot(x, d), d) <= x < PageStart(Quot(x, d), d) + d
  {
    assert (x / d) * d == d * (x / d);
  }

  class Writer {
    const startrom: nat
    const endrom: nat
    const pagesize: nat
    const scan: Scanner
    const rom: array<byte>
    const enable: array<byte>
    const buffer: array<char>
    var pagebit: nat
    var s: int
    var addr: int
    var h: int
    var sent: seq<byte>

    /** What the memory asks for: a ROM that fits the buffers. The page size comes as two bytes,
        and `bits` is what the loop makes of it. */
    static ghost predicate Usable(endrom: nat, pagesize: nat, bits: nat) {
      && endrom < ROM_SIZE && bits <= 16 && PageOf(endrom, bits) < PAGES
      && pagesize <= Pow2(bits) && (bits > 0 ==> Pow2(bits - 1) < pagesize)
    }

    /** What the writing asks for: a page size that is a power of two and divides the ROM. */
    static ghost predicate Fits(endrom: nat, pagesize: nat, bits: nat) {
      Usable(endrom, pagesize, bits) && pagesize == Pow2(bits) && (endrom + 1) % pagesize == 0
    }

    ghost predicate Valid()
      reads this`pagebit
    {
      && rom.Length == ROM_SIZE && enable.Length == PAGES && rom != enable && buffer.Length == BUFFER
      && Usable(endrom, pagesize, pagebit) && ReadsHex(scan)
    }

    /** `lastReply` is what s holds from the device's last answer. */
    constructor (startrom: nat, endrom: nat, pagesize: nat, scan: Scanner, lastReply: byte, ghost bits: nat)
      requires Usable(endrom, pagesize, bits) && ReadsHex(scan)
      ensures Valid() && fresh(rom) && fresh(enable) && fresh(buffer) && sent == []
      ensures this.startrom == startrom && this.endrom == endrom && this.pagesize == pagesize && this.scan == scan
      ensures pagebit == bits && Holds([]) && Sound(State())
      ensures rom.Length == 0x80000 && enable.Length == 0x8000 && buffer.Length == 512
    {
      hide ReadsHex, PageOf;
      this.startrom, this.endrom, this.pagesize, this.scan := startrom, endrom, pagesize, scan;
      rom, enable, buffer := new byte[ROM_SIZE], new byte[PAGES], new char[BUFFER];
      pagebit, s, addr, h, sent := 0, lastReply, *, *, [];
      new;
      pagebit := PageBit(pagesize);
      assert pagesize <= 0x10000 by { Pow2At32(); Pow2Monotone(bits, 16); }
      PageBitUnique(pagesize, pagebit, bits);
      Clear();
    }

    function Shift(x: nat): nat
      reads this`pagebit
    {
      PageOf(x, pagebit)
    }

    /** What one line leaves for the next. */
    ghost function State(): Reader
      reads this, buffer
    {
      Reader(buffer[..], s, addr, h)
    }

    ghost predicate Holds(recs: seq<Record>)
      requires Valid()
      reads this`pagebit, rom, enable
    {
      Image(rom[..], enable[..], endrom, pagebit, recs)
    }

    method Clear()
      requires Valid()
      modifies rom, enable
      ensures Holds([])
    {
      hide ReadsHex, PageOf, Pow2;
      var i := 0;
      while i <= endrom
        invariant i <= endrom + 1
        invariant forall x :: 0 <= x < i ==> rom[x] == ERASED
      {
        rom[i] := ERASED;
        i := i + 1;
      }
      i := 0;
      while i <= Shift(endrom)
        invariant i <= Shift(endrom) + 1
        invariant forall x :: 0 <= x <= endrom ==> rom[x] == ERASED
        invariant forall p :: 0 <= p < i ==> enable[p] == 0
      {
        enable[i] := 0;
        i := i + 1;
      }
    }

    method SkipSpace(text: string, pos: nat) returns (next: nat)
      requires pos <= |text|
      ensures next == SpaceEnd(text, pos)
    {
      hide IsSpace;
      next := pos;
      while next < |text| && IsSpace(text[next])
        invariant pos <= next <= |text| && SpaceEnd(text, next) == SpaceEnd(text, pos)
      {
        next := next + 1;
      }
    }

    /** fscanf with "%256s" from position `pos`: white space is skipped, then up to 256 characters go
        to the buffer, and a NUL behind them. Returns where it stopped, and whether it has run into
        the end of the file. */
    method Fscanf(text: string, pos: nat) returns (next: nat, eof: bool)
      requires buffer.Length == BUFFER && pos <= |text|
      modifies buffer
      ensures next <= |text|
      ensures
        match Reads(text, pos)
        case End => eof && buffer[..] == old(buffer[..])
        case Token(word, after, atEnd) => eof == atEnd && next == after && buffer[..] == Stored(old(buffer[..]), word)
    {
      hide IsSpace, Stored, SpaceEnd, WordEnd;
      ghost var b := buffer[..];
      next := SkipSpace(text, pos);
      eof := next == |text|;
      if eof {
        return;
      }
      ghost var start := next;
      var i := 0;
      WordNext(text, start, 256);
      while i < 256 && next < |text| && !IsSpace(text[next])
        invariant i <= 256 && next == start + i <= |text|
        invariant WordEnd(text, next, 256 - i) == WordEnd(text, start, 256)
        invariant forall k :: 0 <= k < i ==> buffer[k] == text[start + k]
        invariant forall k :: i <= k < BUFFER ==> buffer[k] == b[k]
      {
        WordNext(text, next, 256 - i);
        buffer[i] := text[next];
        i, next := i + 1, next + 1;
      }
      WordNext(text, next, 256 - i);
      eof := i < 256 && next == |text|;
      buffer[i] := '\0';
      StoredIs(b, buffer[..], text[start..next]);
    }

    /** The inner loop: n data bytes from the buffer go to `at`, and their pages are marked. */
    method CopyData(start: nat, at: nat, n: nat)
      requires Valid() && start + 2 * n <= BUFFER && at + n <= endrom
      modifies this`h, rom, enable
      ensures h == Scanned(scan, buffer[..], start, n, old(h)).1
      ensures Copied(old(rom[..]), old(enable[..]), rom[..], enable[..], endrom, pagebit, at,
                Scanned(scan, buffer[..], start, n, old(h)).0)
    {
      hide Spans, PageOf, Pow2, ReadsHex, Scanned;
      NoSpan(at, pagebit);
      ghost var r0, e0, b, h0 := rom[..], enable[..], buffer[..], h;
      ghost var bytes := Scanned(scan, b, start, n, h0).0;
      var data := start;
      var i := 0;
      ScannedStart(scan, b, start, h0);
      while i < n
        invariant i <= n && data == start + 2 * i && buffer[..] == b
        invariant h == Scanned(scan, b, start, i, h0).1
        invariant forall x :: 0 <= x <= endrom ==> rom[x] == if at <= x < at + i then bytes[x - at] else r0[x]
        invariant forall p :: 0 <= p <= Shift(endrom) ==> enable[p] == if Spans(at, i, pagebit, p) then 1 else e0[p]
      {
        PageMonotone(at + i, endrom, pagebit);
        SpansMore(at, i, pagebit);
        ScannedStep(scan, b, start, n, i, h0);
        assert buffer[data..data + 2] == b[data..data + 2];
        h := scan(buffer[data..data + 2], h);
        data := data + 2;
        rom[at + i] := h % 256;
        enable[Shift(at + i)] := 1;
        i := i + 1;
      }
    }

    /** One line of the file, in the buffer: checked, then copied into the image. */
    method LoadRecord(ghost t: string, ghost r: Reader, ghost before: seq<Record>)
      requires Valid() && Holds(before) && |t| <= TOKEN && Sound(r) && State() == r.(buffer := Stored(r.buffer, t))
      modifies this`s, this`addr, this`h, rom, enable
      ensures State() == Read(scan, r, t, startrom, endrom).0
      ensures Holds(before + [Read(scan, r, t, startrom, endrom).1])
    {
      hide ReadsHex, Image, Copied, Stored, Scanned, Read, Fields, Fits;
      ghost var b, rec := buffer[..], Read(scan, r, t, startrom, endrom).1;
      ReadCases(scan, r, t, startrom, endrom);
      ImageSame(rom[..], enable[..], endrom, pagebit, before, rec);
      if buffer[0] == 'S' {
        var addrsize: nat;
        var data: nat;
        if buffer[1] == '1' {
          addrsize, data := 1, 8;
        } else if buffer[1] == '2' {
          addrsize, data := 2, 10;
        } else if buffer[1] == '3' {
          addrsize, data := 3, 12;
        } else {
          return;
        }
        assert buffer[2..4] == b[2..4] && buffer[4..4 + (addrsize + 1) * 2] == b[4..DataStart(b)];
        s := scan(buffer[2..4], s);
        s := s - 2 - addrsize;
        addr := scan(buffer[4..4 + (addrsize + 1) * 2], addr);
        if addr < startrom || addr + s > endrom {
          return;
        }
        ScannedStart(scan, b, data, h);
        if s > 0 {
          ghost var r0, e0 := rom[..], enable[..];
          CopyData(data, addr, s);
          ImageCopied(r0, e0, rom[..], enable[..], endrom, pagebit, before, rec);
        }
      }
    }

    /** The record loop: it ends when a call has run into the end of the file, and does not look at
        what that call has read. */
    method Load(text: string)
      requires Valid() && Holds([]) && Sound(State())
      modifies this`s, this`addr, this`h, buffer, rom, enable
      ensures Tokens(Seen(text, 0)) && Holds(Records(scan, old(State()), Seen(text, 0), startrom, endrom).1)
    {
      hide ReadsHex, Read, Stored, ImageAt, Dirty, PageOf, Pow2, Seen, Reads, Records;
      SeenTokens(text, 0);
      ghost var start := State();
      ghost var r, recs, done, token := start, [], [], Upcoming(text, 0);
      NoRecords(scan, start, startrom, endrom);
      SeenStep(text, 0);
      var pos: nat, eof: bool;
      pos, eof := Fscanf(text, 0);
      while !eof
        invariant pos <= |text| && Tokens(done)
        invariant Seen(text, 0) == done + if eof then [] else [token] + Seen(text, pos)
        invariant (r, recs) == Records(scan, start, done, startrom, endrom) && Sound(r)
        invariant Holds(recs)
        invariant !eof ==> |token| <= TOKEN && State() == r.(buffer := Stored(r.buffer, token))
        decreases if eof then 0 else 1 + |text| - pos
      {
        LoadRecord(token, r, recs);
        RecordsMore(scan, start, done, token, startrom, endrom);
        r, recs := Read(scan, r, token, startrom, endrom).0, recs + [Read(scan, r, token, startrom, endrom).1];
        TokensMore(done, token, Seen(text, pos));
        done := done + [token];
        SeenStep(text, pos);
        token := Upcoming(text, pos);
        pos, eof := Fscanf(text, pos);
      }
      assert done + [] == done;
    }

    /** Sends an address, most significant byte first; returns the checksum so far. */
    method PutLong(addr: nat, sum: byte, ghost head: seq<byte>) returns (r: byte)
      requires addr < 0x1_0000_0000 && sum == Sum(head) % 256
      modifies this`sent
      ensures sent == old(sent) + BigEndian(addr)
      ensures r == Sum(head + BigEndian(addr)) % 256
    {
      hide Sum;
      r := sum;
      var c := addr / 0x100_0000 % 256;
      sent := sent + [c];
      SumMore(head, c);
      r := (r + c) % 256;
      ghost var h := head + [c];
      c := addr / 0x1_0000 % 256;
      sent := sent + [c];
      SumMore(h, c);
      r := (r + c) % 256;
      h := h + [c];
      c := addr / 0x100 % 256;
      sent := sent + [c];
      SumMore(h, c);
      r := (r + c) % 256;
      h := h + [c];
      c := addr % 256;
      sent := sent + [c];
      SumMore(h, c);
      r := (r + c) % 256;
      assert h + [c] == head + BigEndian(addr);
    }

    ghost function FrameOf(i: nat): seq<byte>
      requires Valid() && i <= Shift(endrom)
      reads this`pagebit, rom
    {
      PagesInMemory(endrom, pagebit, pagesize, i);
      PageFrame(rom[..], i, pagebit, pagesize)
    }

    /** The frames of the enabled pages, lowest first. */
    ghost function Frames(): seq<byte>
      requires Valid()
      reads this`pagebit, rom, enable
    {
      PagesInMemory(endrom, pagebit, pagesize, Shift(endrom));
      PagesSent(rom[..], enable[..], 0, Shift(endrom) + 1, pagebit, pagesize)
    }

    /** One page as a frame. */
    method SendPage(i: nat)
      requires Valid() && i <= Shift(endrom)
      modifies this`sent
      ensures sent == old(sent) + FrameOf(i)
    {
      hide Sum, PageOf, Pow2, BigEndian, ReadsHex, PageStart, PageFrame, Usable, Checked, SoFar;
      PagesInMemory(endrom, pagebit, pagesize, i);
      PageFrameIs(rom[..], i, pagebit, pagesize);
      ghost var a, before := PageStart(i, pagesize), sent;
      ghost var page: seq<byte> := rom[a..a + pagesize];
      var addr := PageStart(i, Pow2(pagebit));
      sent := sent + [WRITE_128_COM];
      CommandSum();
      var sum := PutLong(addr, WRITE_128_COM, [WRITE_128_COM]);
      ghost var head: seq<byte> := [WRITE_128_COM] + BigEndian(addr);
      PageSum(before, head, page, 0, sum);
      var j := 0;
      while j < pagesize
        invariant j <= pagesize
        invariant sent == before + SoFar(head, page, j)
        invariant sum == Sum(SoFar(head, page, j)) % 256
      {
        var b := rom[PageStart(i, pagesize) + j];
        PageSum(before, head, page, j, sum);
        sent := sent + [b];
        sum := (sum + b) % 256;
        j := j + 1;
      }
      PageSum(before, head, page, j, sum);
      FrameDone(before, head + page, sum);
      sum := (0 - sum as int) % 256;
      sent := sent + [sum];
    }

    /** All dirty pages, lowest first. */
    method SendPages()
      requires Valid()
      modifies this`sent
      ensures sent == old(sent) + Frames()
    {
      hide PageFrame, PageOf, Pow2, PageStart, PagesSent, ReadsHex;
      ghost var before, n := sent, Shift(endrom) + 1;
      PagesInMemory(endrom, pagebit, pagesize, Shift(endrom));
      var i := 0;
      while i <= Shift(endrom)
        invariant i <= n
        invariant sent + PagesSent(rom[..], enable[..], i, n, pagebit, pagesize) == before + Frames()
      {
        FramesStep(rom[..], enable[..], i, n, pagebit, pagesize, sent);
        if enable[i] == 1 {
          SendPage(i);
        }
        i := i + 1;
      }
      FramesEnd(rom[..], enable[..], n, pagebit, pagesize, sent);
    }

    /** The frame that ends the writing. */
    method SendEnd()
      modifies this`sent
      ensures sent == old(sent) + EndFrame()
    {
      hide Sum;
      ghost var before, head := sent, [WRITE_128_COM];
      var sum := WRITE_128_COM;
      NoSum();
      SumMore([], WRITE_128_COM);
      assert [] + head == head;
      sent := sent + [WRITE_128_COM];
      var i := 0;
      while i < 4
        invariant i <= 4 && head == [WRITE_128_COM] + seq(i, _ => 0xff)
        invariant sent == before + head && sum == Sum(head) % 256
      {
        SumMore(head, 0xff);
        sum := (sum + 0xff) % 256;
        sent := sent + [0xff];
        head := head + [0xff];
        i := i + 1;
      }
      assert head == [WRITE_128_COM, 0xff, 0xff, 0xff, 0xff];
      sum := (0 - sum as int) % 256;
      sent := sent + [sum];
    }

    /** From file to device: if the page size fits, what is sent programs an erased device with
        exactly the image of the file. */
    method WriteFile(text: string)
      requires Valid() && Holds([]) && Sound(State())
      modifies this`s, this`addr, this`h, this`sent, buffer, rom, enable
      ensures Valid()
      ensures sent == old(sent) + Frames() + EndFrame()
      ensures
        && Tokens(Seen(text, 0))
        && var recs := Records(scan, old(State()), Seen(text, 0), startrom, endrom).1;
        && Holds(recs)
        && (Fits(endrom, pagesize, pagebit) ==>
              Run(Frames() + EndFrame(), pagesize, seq(endrom + 1, _ => 0xff)) ==
                Programmed(seq(endrom + 1, x requires 0 <= x => ImageAt(recs, x))))
    {
      hide ReadsHex, Records, ImageAt, Dirty, Run, PagesSent, EndFrame, Pow2, PageOf, Sound, Tokens, Seen;
      SeenTokens(text, 0);
      ghost var recs := Records(scan, State(), Seen(text, 0), startrom, endrom).1;
      Load(text);
      SendPages();
      SendEnd();
      if Fits(endrom, pagesize, pagebit) {
        FlashIsImage(recs, endrom, pagesize, pagebit, rom[..], enable[..]);
      }
    }
  }

  /** What the next call reads. */
  function Upcoming(text: string, pos: nat): string
    requires pos <= |text|
  {
    if Reads(text, pos).Token? then Reads(text, pos).word else ""
  }

  lemma WordNext(text: string, pos: nat, width: nat)
    requires pos <= |text|
    ensures WordEnd(text, pos, width) ==
      if pos == |text| || width == 0 || IsSpace(text[pos]) then pos else WordEnd(text, pos + 1, width - 1)
  {
  }

  lemma StoredIs(b: string, b': string, word: string)
    requires |b| == |b'| == BUFFER && |word| <= TOKEN && b'[|word|] == '\0'
    requires forall k :: 0 <= k < |word| ==> b'[k] == word[k]
    requires forall k :: |word| < k < BUFFER ==> b'[k] == b[k]
    ensures b' == Stored(b, word)
  {
  }

  lemma NoRecords(scan: Scanner, r: Reader, startrom: nat, endrom: nat)
    requires ReadsHex(scan) && Sound(r)
    ensures Tokens([]) && Records(scan, r, [], startrom, endrom) == (r, [])
  {
  }

  lemma RecordsMore(scan: Scanner, r: Reader, done: seq<string>, token: string, startrom: nat, endrom: nat)
    requires ReadsHex(scan) && Sound(r) && Tokens(done) && |token| <= TOKEN
    ensures Tokens(done + [token])
    ensures
      var (before, recs) := Records(scan, r, done, startrom, endrom);
      Records(scan, r, done + [token], startrom, endrom) ==
        (Read(scan, before, token, startrom, endrom).0, recs + [Read(scan, before, token, startrom, endrom).1])
  {
    hide Read, ReadsHex, Sound;
    assert (done + [token])[..|done|] == done;
  }

  lemma TokensMore(done: seq<string>, token: string, more: seq<string>)
    ensures done + ([token] + more) == (done + [token]) + more
  {
  }

  /** The file "S1047FFEAAD4", with a newline behind it and without: its one byte is loaded, or lost. */
  lemma OneRecordFile(scan: Scanner, r: Reader)
    requires ReadsHex(scan) && Sound(r)
    ensures
      var text := "S1047FFEAAD4";
      && Tokens(Seen(text + "\n", 0)) && Records(scan, r, Seen(text + "\n", 0), 0, 0x7fff).1 == [Taken(0x7ffe, [0xaa])]
      && Tokens(Seen(text, 0)) && Records(scan, r, Seen(text, 0), 0, 0x7fff).1 == []
  {
    hide Seen, RecordText, Read, Records;
    var text := "S1047FFEAAD4";
    SeenTokens(text, 0);
    SeenTokens(text + "\n", 0);
    OneWord(text);
    Examples();
    FourDigits();
    NoRecords(scan, r, 0, 0x7fff);
    RecordsMore(scan, r, [], text, 0, 0x7fff);
    assert [] + [text] == [text];
    RecordRead(scan, r, 1, 0x7ffe, [0xaa], 0xd4, 0, 0x7fff);
    assert First(text) == text;
  }

  lemma OneWord(text: string)
    requires 0 < |text| < 256 && NoSpace(text)
    ensures Seen(text + "\n", 0) == [text] && Seen(text, 0) == []
  {
    hide Seen, Text, Chars, Lines, AllSpace, NoSpace, IsSpace;
    var line, last := Word(text, "\n"), Word(text, "");
    OneLine(text);
    LinesSeen("", [line]);
    LastLine("", [], text);
    assert [] + [last] == [last];
    NoLead(Text([line]));
    NoLead(Text([last]));
  }

  lemma NoLead(s: string)
    ensures "" + s == s
  {
  }

  lemma OneLine(text: string)
    requires 0 < |text| < 256 && NoSpace(text)
    ensures Lines([Word(text, "\n")]) && Lines([]) && AllSpace("")
    ensures Text([Word(text, "\n")]) == text + "\n" && Text([Word(text, "")]) == text
    ensures Chars([Word(text, "\n")]) == [text] && Chars([]) == []
  {
    hide NoSpace;
    assert IsSpace("\n"[0]);
    assert Text([]) == "";
  }

  /** On the flash: its byte at its place, and 0xff everywhere else; without the newline nothing. */
  lemma OneRecordImage(scan: Scanner, r: Reader, x: nat)
    requires ReadsHex(scan) && Sound(r) && x < 0x8000
    ensures
      var text := "S1047FFEAAD4";
      && Tokens(Seen(text + "\n", 0)) && Tokens(Seen(text, 0))
      && ImageAt(Records(scan, r, Seen(text + "\n", 0), 0, 0x7fff).1, x) == (if x == 0x7ffe then 0xaa else 0xff)
      && ImageAt(Records(scan, r, Seen(text, 0), 0, 0x7fff).1, x) == 0xff
  {
    hide Seen, Records;
    OneRecordFile(scan, r);
    ImageErased([], x);
    if x == 0x7ffe {
      ImageLast([Taken(0x7ffe, [0xaa])], 0, x);
    } else {
      ImageErased([Taken(0x7ffe, [0xaa])], x);
    }
  }

  lemma SeenTokens(text: string, pos: nat)
    requires pos <= |text|
    ensures Tokens(Seen(text, pos))
  {
  }

  /** The image holds the records in order, and exactly their pages are enabled. */
  ghost predicate Image(rom: seq<byte>, enable: seq<byte>, endrom: nat, bits: nat, recs: seq<Record>) {
    && endrom < |rom| && PageOf(endrom, bits) < |enable|
    && (forall x :: 0 <= x <= endrom ==> rom[x] == ImageAt(recs, x))
    && (forall p :: 0 <= p <= PageOf(endrom, bits) ==> enable[p] == if Dirty(recs, bits, p) then 1 else 0)
  }

  /** The bytes were put at `at`, and their pages marked. */
  ghost predicate Copied(r0: seq<byte>, e0: seq<byte>, r1: seq<byte>, e1: seq<byte>, endrom: nat, bits: nat, at: nat, bytes: seq<byte>)
  {
    && endrom < |r0| == |r1| && PageOf(endrom, bits) < |e0| == |e1|
    && (forall x :: 0 <= x <= endrom ==> r1[x] == if at <= x < at + |bytes| then bytes[x - at] else r0[x])
    && (forall p :: 0 <= p <= PageOf(endrom, bits) ==> e1[p] == if Spans(at, |bytes|, bits, p) then 1 else e0[p])
  }

  lemma ImageSame(rom: seq<byte>, enable: seq<byte>, endrom: nat, bits: nat, before: seq<Record>, rec: Record)
    requires Image(rom, enable, endrom, bits, before)
    ensures rec.Skipped? || rec.bytes == [] ==> Image(rom, enable, endrom, bits, before + [rec])
  {
    hide Dirty, ImageAt, Spans, PageOf;
    ImageStep(before, rec);
    DirtyStep(before, rec, bits);
    if rec.Taken? {
      NoSpan(rec.addr, bits);
    }
  }

  lemma ImageCopied(r0: seq<byte>, e0: seq<byte>, r1: seq<byte>, e1: seq<byte>, endrom: nat, bits: nat,
                    before: seq<Record>, rec: Record)
    requires Image(r0, e0, endrom, bits, before)
    requires rec.Taken? && Copied(r0, e0, r1, e1, endrom, bits, rec.addr, rec.bytes)
    ensures Image(r1, e1, endrom, bits, before + [rec])
  {
    hide Dirty, ImageAt, Spans, PageOf;
    ImageStep(before, rec);
    DirtyStep(before, rec, bits);
  }

  /** An image and a page table that hold the file program an erased device with it. */
  lemma FlashIsImage(recs: seq<Record>, endrom: nat, pagesize: nat, bits: nat, rom: seq<byte>, enable: seq<byte>)
    requires Writer.Fits(endrom, pagesize, bits) && Image(rom, enable, endrom, bits, recs)
    ensures PageStart(PageOf(endrom, bits) + 1, pagesize) == endrom + 1
    ensures Run(PagesSent(rom, enable, 0, PageOf(endrom, bits) + 1, bits, pagesize) + EndFrame(), pagesize,
              seq(endrom + 1, _ => 0xff)) ==
      Programmed(seq(endrom + 1, x requires 0 <= x => ImageAt(recs, x)))
  {
    hide Run, PagesSent, FramesFrom, EndFrame, Written, ImageAt, Dirty, PageOf, PageStart, Pow2;
    PagesFill(endrom, bits);
    var n := PageOf(endrom, bits) + 1;
    SentIsFrames(rom, enable, 0, n, bits, pagesize);
    FramesAreImage(recs, endrom, pagesize, bits, rom[..endrom + 1], enable[..n]);
  }

  lemma FramesAreImage(recs: seq<Record>, endrom: nat, pagesize: nat, bits: nat, rom: seq<byte>, enable: seq<byte>)
    requires Writer.Fits(endrom, pagesize, bits)
    requires |rom| == endrom + 1 && |enable| == PageOf(endrom, bits) + 1 && PageStart(|enable|, pagesize) == endrom + 1
    requires forall x :: 0 <= x <= endrom ==> rom[x] == ImageAt(recs, x)
    requires forall p :: 0 <= p < |enable| ==>
      enable[p] == if Dirty(recs, bits, p) then 1 else 0
    ensures Run(FramesFrom(rom, enable, 0, pagesize) + EndFrame(), pagesize, seq(endrom + 1, _ => 0xff)) ==
      Programmed(seq(endrom + 1, x requires 0 <= x => ImageAt(recs, x)))
  {
    hide Run, FramesFrom, EndFrame, Written, ImageAt, Dirty, PageOf, PageStart, Pow2;
    var erased: seq<byte> := seq(endrom + 1, _ => 0xff);
    FramesRun(rom, enable, 0, pagesize, erased);
    var flash := Written(erased, rom, enable, 0, pagesize);
    forall x | 0 <= x <= endrom
      ensures flash[x] == rom[x]
    {
      OnPage(x, bits);
      PageMonotone(x, endrom, bits);
      WrittenAt(erased, rom, enable, 0, pagesize, PageOf(x, bits), x);
      if !Dirty(recs, bits, PageOf(x, bits)) {
        CleanErased(recs, bits, x);
      }
    }
    assert flash == seq(endrom + 1, x requires 0 <= x => ImageAt(recs, x));
  }

  lemma CommandSum()
    ensures Sum([WRITE_128_COM]) == WRITE_128_COM
  {
    SumMore([], WRITE_128_COM);
    assert [] + [WRITE_128_COM] == [WRITE_128_COM];
  }

  /** What has been sent of a frame after j bytes of its page. */
  ghost function SoFar(head: seq<byte>, page: seq<byte>, j: nat): seq<byte> {
    if j <= |page| then head + page[..j] else head
  }

  lemma PageSum(before: seq<byte>, head: seq<byte>, page: seq<byte>, j: nat, sum: byte)
    requires j <= |page|
    ensures j == 0 ==> SoFar(head, page, j) == head && before + SoFar(head, page, j) == before + head
    ensures j == |page| ==> SoFar(head, page, j) == head + page
    ensures j < |page| ==> before + SoFar(head, page, j + 1) == before + SoFar(head, page, j) + [page[j]]
    ensures j < |page| && sum == Sum(SoFar(head, page, j)) % 256 ==>
      (sum + page[j]) % 256 == Sum(SoFar(head, page, j + 1)) % 256
  {
    hide Sum;
    if j < |page| {
      SumMore(head + page[..j], page[j]);
      assert head + page[..j + 1] == head + page[..j] + [page[j]];
    } else {
      assert page[..j] == page;
    }
  }

  lemma FrameDone(before: seq<byte>, frame: seq<byte>, sum: byte)
    ensures sum == Sum(frame) % 256 ==> before + frame + [(0 - sum as int) % 256] == before + Checked(frame)
  {
    hide Sum;
    NegativeByte(sum);
    assert before + frame + [(256 - sum) % 256] == before + (frame + [(256 - sum) % 256]);
  }

  lemma NegativeByte(b: byte)
    ensures (0 - b as int) % 256 == (256 - b) % 256
  {
  }

  lemma PageFrameIs(rom: seq<byte>, i: nat, bits: nat, size: nat)
    requires PageStart(i, size) + size <= |rom|
    ensures PageFrame(rom, i, bits, size) ==
      Checked([WRITE_128_COM] + BigEndian(PageStart(i, Pow2(bits))) + rom[PageStart(i, size)..PageStart(i, size) + size])
  {
    hide Pow2, BigEndian, Checked;
  }

  lemma FramesStep(rom: seq<byte>, enable: seq<byte>, i: nat, n: nat, bits: nat, size: nat, sent: seq<byte>)
    requires i < n <= |enable| && PageStart(n, size) <= |rom|
    ensures PageStart(i, size) + size <= |rom|
    ensures sent + PagesSent(rom, enable, i, n, bits, size) ==
      (if enable[i] == 1 then sent + PageFrame(rom, i, bits, size) else sent) + PagesSent(rom, enable, i + 1, n, bits, size)
  {
    hide PageFrame, PageStart;
    PageInside(i, n, size);
  }

  lemma FramesEnd(rom: seq<byte>, enable: seq<byte>, n: nat, bits: nat, size: nat, sent: seq<byte>)
    requires n <= |enable| && PageStart(n, size) <= |rom|
    ensures sent + PagesSent(rom, enable, n, n, bits, size) == sent
  {
  }

  lemma ImageStep(before: seq<Record>, rec: Record)
    ensures forall x: nat ::
      ImageAt(before + [rec], x) == if Covers(rec, x) then rec.bytes[x - rec.addr] else ImageAt(before, x)
  {
    assert (before + [rec])[..|before|] == before;
  }

  lemma DirtyStep(before: seq<Record>, rec: Record, bits: nat)
    ensures forall p: nat :: Dirty(before + [rec], bits, p) <==> Dirty(before, bits, p) || Marks(rec, bits, p)
  {
    hide Marks;
    assert (before + [rec])[..|before|] == before;
  }

  lemma NoSpan(a: int, bits: nat)
    ensures forall p, n :: n <= 0 ==> !Spans(a, n, bits, p)
  {
  }
}
