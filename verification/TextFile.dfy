/** A text file as fscanf with "%256s" reads it: white space is skipped, and up to 256 other
    characters make a token. End of file is set when the reading runs into the end of the text. */
module TextFile {

  predicate IsSpace(c: char) {
    c == ' ' || c == '\t' || c == '\n' || c == '\r' || c as int == 11 || c as int == 12
  }

  /** Space, tab, newline, vertical tab, form feed and carriage return. */
  lemma SpaceIs(c: char)
    ensures IsSpace(c) <==> c as int in {32, 9, 10, 11, 12, 13}
  {
  }

  predicate AllSpace(s: string) {
    forall k :: 0 <= k < |s| ==> IsSpace(s[k])
  }

  predicate NoSpace(s: string) {
    forall k :: 0 <= k < |s| ==> !IsSpace(s[k])
  }

  /** What one call reads: nothing but white space, or a token. */
  datatype Reading = End | Token(word: string, next: nat, eof: bool)

  function SpaceEnd(text: string, pos: nat): (e: nat)
    requires pos <= |text|
    ensures pos <= e <= |text| && (forall k :: pos <= k < e ==> IsSpace(text[k])) && (e < |text| ==> !IsSpace(text[e]))
    decreases |text| - pos
  {
    if pos == |text| || !IsSpace(text[pos]) then pos else SpaceEnd(text, pos + 1)
  }

  function WordEnd(text: string, pos: nat, width: nat): (e: nat)
    requires pos <= |text|
    ensures pos <= e <= |text| && e - pos <= width && forall k :: pos <= k < e ==> !IsSpace(text[k])
    ensures e < |text| && e - pos < width ==> IsSpace(text[e])
    decreases |text| - pos
  {
    if pos == |text| || width == 0 || IsSpace(text[pos]) then pos else WordEnd(text, pos + 1, width - 1)
  }

  function Reads(text: string, pos: nat): (r: Reading)
    requires pos <= |text|
    ensures r.Token? ==> 0 < |r.word| <= 256 && pos < r.next <= |text|
  {
    var start := SpaceEnd(text, pos);
    if start == |text| then End
    else
      var e := WordEnd(text, start, 256);
      Token(text[start..e], e, e == |text| && e - start < 256)
  }

  /** The tokens a loop sees that stops at end of file before it looks at the token. */
  function Seen(text: string, pos: nat): (tokens: seq<string>)
    requires pos <= |text|
    ensures forall t :: t in tokens ==> |t| <= 256
    decreases |text| - pos
  {
    var r := Reads(text, pos);
    if r.End? || r.eof then [] else [r.word] + Seen(text, r.next)
  }

  // ---------------------------------------------------------------- a text as words

  /** A word and the white space behind it. */
  datatype Word = Word(chars: string, gap: string)

  function Text(words: seq<Word>): string {
    if words == [] then "" else words[0].chars + words[0].gap + Text(words[1..])
  }

  /** White space separates the words; only behind the last one there may be none. */
  predicate Separated(words: seq<Word>) {
    && (forall i :: 0 <= i < |words| ==> words[i].chars != "" && NoSpace(words[i].chars) && AllSpace(words[i].gap))
    && forall i :: 0 <= i < |words| - 1 ==> words[i].gap != ""
  }

  /** A long word comes in pieces of 256 characters. */
  function Cut(s: string): (pieces: seq<string>)
    ensures pieces != [] && forall t :: t in pieces ==> |t| <= 256
  {
    if |s| <= 256 then [s] else [s[..256]] + Cut(s[256..])
  }

  function AllCut(words: seq<Word>): seq<string> {
    if words == [] then [] else Cut(words[0].chars) + AllCut(words[1..])
  }

  /** A last word that nothing follows runs into the end of the file, unless its last piece is full. */
  predicate RunsIntoEnd(words: seq<Word>) {
    words != [] && words[|words| - 1].gap == "" && |words[|words| - 1].chars| % 256 != 0
  }

  lemma SpaceBefore(a: string, gap: string, rest: string)
    requires AllSpace(gap) && (rest != "" ==> !IsSpace(rest[0]))
    ensures SpaceEnd(a + gap + rest, |a|) == |a| + |gap|
  {
    var text := a + gap + rest;
    assert forall k :: |a| <= k < |a| + |gap| ==> text[k] == gap[k - |a|];
    assert rest != "" ==> text[|a| + |gap|] == rest[0];
  }

  lemma WordHere(a: string, word: string, rest: string)
    requires word != "" && NoSpace(word) && (rest != "" && |word| < 256 ==> IsSpace(rest[0]))
    ensures WordEnd(a + word + rest, |a|, 256) == |a| + if |word| <= 256 then |word| else 256
  {
    var text := a + word + rest;
    assert forall k :: |a| <= k < |a| + |word| ==> text[k] == word[k - |a|];
    assert rest != "" ==> text[|a| + |word|] == rest[0];
  }

  /** One call in front of white space, a word and what follows it. */
  lemma ReadsWord(a: string, gap: string, word: string, rest: string)
    requires AllSpace(gap) && word != "" && NoSpace(word) && (rest != "" && |word| < 256 ==> IsSpace(rest[0]))
    ensures
      var n := if |word| <= 256 then |word| else 256;
      Reads(a + gap + (word + rest), |a|) == Token(word[..n], |a| + |gap| + n, |word| < 256 && rest == "")
  {
    hide IsSpace, AllSpace;
    assert !IsSpace(word[0]);
    SpaceBefore(a, gap, word + rest);
    WordHere(a + gap, word, rest);
    ReadsIs(a + gap, word, rest, if |word| <= 256 then |word| else 256);
  }

  /** The parts of a + word + rest. */
  lemma ReadsIs(a: string, word: string, rest: string, n: nat)
    requires n <= |word|
    ensures a + (word + rest) == a + word + rest && (a + (word + rest))[|a|..|a| + n] == word[..n]
  {
  }

  lemma SeenStep(text: string, pos: nat)
    requires pos <= |text|
    ensures Seen(text, pos) ==
      if Reads(text, pos).End? || Reads(text, pos).eof then [] else [Reads(text, pos).word] + Seen(text, Reads(text, pos).next)
  {
  }

  function Trimmed(all: seq<string>, last: bool): seq<string> {
    if last && all != [] then all[..|all| - 1] else all
  }

  /** All pieces but the one that runs into the end. */
  function Kept(words: seq<Word>): (tokens: seq<string>) {
    Trimmed(AllCut(words), RunsIntoEnd(words))
  }

  /** A text with a word behind white space, taken apart behind the word. */
  lemma TextApart(a: string, gap: string, w: Word, more: seq<Word>)
    ensures a + gap + Text([w] + more) == a + gap + (w.chars + (w.gap + Text(more)))
    ensures a + gap + Text([w] + more) == (a + gap + w.chars) + w.gap + Text(more)
  {
    hide Text;
    TextCons(w, more);
  }

  /** And in the middle of it. */
  lemma WordApart(a: string, gap: string, w: Word, more: seq<Word>, n: nat)
    requires n <= |w.chars|
    ensures a + gap + Text([w] + more) == (a + gap + w.chars[..n]) + "" + Text([Word(w.chars[n..], w.gap)] + more)
  {
    hide Text;
    var c, t := w.chars, w.gap + Text(more);
    TextCons(w, more);
    TextCons(Word(c[n..], w.gap), more);
    assert c + w.gap + Text(more) == c + t && c[n..] + w.gap + Text(more) == c[n..] + t;
    assert c == c[..n] + c[n..];
  }

  lemma TextCons(w: Word, more: seq<Word>)
    ensures Text([w] + more) == w.chars + w.gap + Text(more)
  {
    assert ([w] + more)[1..] == more;
  }

  /** The first word, if it fits a token: what is seen behind it comes after it. */
  lemma SeenShort(a: string, gap: string, w: Word, more: seq<Word>)
    requires AllSpace(gap) && Separated([w] + more) && |w.chars| <= 256
    requires |w.chars| == 256 || w.gap != "" ==> Seen((a + gap + w.chars) + w.gap + Text(more), |a + gap + w.chars|) == Kept(more)
    ensures Seen(a + gap + Text([w] + more), |a|) == Kept([w] + more)
  {
    hide Seen, Reads, AllSpace, NoSpace, Separated, Kept, Text, IsSpace;
    FirstWord([w] + more);
    assert ([w] + more)[1..] == more && w.chars[..|w.chars|] == w.chars;
    var text := a + gap + Text([w] + more);
    SeenStep(text, |a|);
    TextApart(a, gap, w, more);
    ReadsWord(a, gap, w.chars, w.gap + Text(more));
    assert Reads(text, |a|) == Token(w.chars, |a + gap + w.chars|, |w.chars| < 256 && w.gap == "");
    KeptShort(w, more);
  }

  /** And if it does not: what is seen from its 257th character on. */
  lemma SeenLong(a: string, gap: string, w: Word, more: seq<Word>)
    requires AllSpace(gap) && Separated([w] + more) && |w.chars| > 256
    requires
      var rest := [Word(w.chars[256..], w.gap)] + more;
      Seen((a + gap + w.chars[..256]) + "" + Text(rest), |a + gap + w.chars[..256]|) == Kept(rest)
    ensures Seen(a + gap + Text([w] + more), |a|) == Kept([w] + more)
  {
    hide Seen, Reads, AllSpace, NoSpace, Separated, Kept, Text, IsSpace;
    FirstWord([w] + more);
    assert ([w] + more)[1..] == more;
    SeenStep(a + gap + Text([w] + more), |a|);
    TextApart(a, gap, w, more);
    WordApart(a, gap, w, more, 256);
    ReadsWord(a, gap, w.chars, w.gap + Text(more));
    KeptLong(w, more);
  }

  lemma {:induction false} SeenFrom(a: string, gap: string, words: seq<Word>)
    requires AllSpace(gap) && Separated(words)
    ensures Seen(a + gap + Text(words), |a|) == Kept(words)
    decreases |gap| + |Text(words)|
  {
    hide Seen, Reads, AllSpace, NoSpace, Separated, Kept, Text, IsSpace;
    if words == [] {
      SeenStep(a + gap + Text(words), |a|);
      NoMore(a, gap);
    } else {
      var w, more := words[0], words[1..];
      assert words == [w] + more;
      FirstWord(words);
      TextCons(w, more);
      if |w.chars| <= 256 {
        SeenFrom(a + gap + w.chars, w.gap, more);
        SeenShort(a, gap, w, more);
      } else {
        TextCons(Word(w.chars[256..], w.gap), more);
        SeenFrom(a + gap + w.chars[..256], "", [Word(w.chars[256..], w.gap)] + more);
        SeenLong(a, gap, w, more);
      }
    }
  }

  lemma NoMore(a: string, gap: string)
    requires AllSpace(gap)
    ensures Reads(a + gap + "", |a|) == End && Kept([]) == [] && Text([]) == ""
  {
    SpaceBefore(a, gap, "");
  }

  /** What is known of the first word. */
  lemma FirstWord(words: seq<Word>)
    requires Separated(words) && words != []
    ensures
      var w, more := words[0], words[1..];
      && w.chars != "" && NoSpace(w.chars) && AllSpace(w.gap) && AllSpace("") && Separated(more)
      && (w.gap + Text(more) != "" ==> IsSpace((w.gap + Text(more))[0]))
      && (w.gap + Text(more) == "" <==> w.gap == "")
      && (w.gap == "" ==> more == [])
      && (|w.chars| > 256 ==> Separated([Word(w.chars[256..], w.gap)] + more))
  {
    hide IsSpace, Text;
    var w, more := words[0], words[1..];
    assert w.gap == "" ==> more == [];
    NoText();
    assert forall i :: 0 <= i < |more| ==> more[i] == words[i + 1];
    if |w.chars| > 256 {
      LaterPart(words);
    }
  }

  lemma NoText()
    ensures Text([]) == ""
  {
  }

  lemma LaterPart(words: seq<Word>)
    requires Separated(words) && words != [] && |words[0].chars| > 256
    ensures Separated([Word(words[0].chars[256..], words[0].gap)] + words[1..])
  {
    hide IsSpace;
    var w := words[0];
    var cut := [Word(w.chars[256..], w.gap)] + words[1..];
    assert forall i :: 0 < i < |cut| ==> cut[i] == words[i];
    assert NoSpace(cut[0].chars);
  }

  lemma CutCons(w: Word, more: seq<Word>)
    ensures AllCut([w] + more) == Cut(w.chars) + AllCut(more)
  {
    assert ([w] + more)[1..] == more;
  }

  lemma RunsCons(w: Word, more: seq<Word>)
    ensures RunsIntoEnd([w] + more) <==> if more == [] then w.gap == "" && |w.chars| % 256 != 0 else RunsIntoEnd(more)
  {
  }

  lemma TrimmedCons(t: string, all: seq<string>, last: bool)
    ensures all != [] ==> Trimmed([t] + all, last) == [t] + Trimmed(all, last)
    ensures Trimmed([t] + [], last) == if last then [] else [t] + Trimmed([], false)
  {
  }

  lemma KeptShort(w: Word, more: seq<Word>)
    requires |w.chars| <= 256 && w.chars != "" && (w.gap == "" ==> more == [])
    ensures Kept([w] + more) == if |w.chars| < 256 && w.gap == "" then [] else [w.chars] + Kept(more)
  {
    hide AllCut, RunsIntoEnd, Trimmed;
    CutCons(w, more);
    RunsCons(w, more);
    NothingKept();
    if more != [] {
      SomePieces(more);
    }
    TrimmedCons(w.chars, AllCut(more), RunsIntoEnd([w] + more));
  }

  lemma KeptLong(w: Word, more: seq<Word>)
    requires |w.chars| > 256
    ensures Kept([w] + more) == [w.chars[..256]] + Kept([Word(w.chars[256..], w.gap)] + more)
  {
    hide AllCut, RunsIntoEnd, Cut, Trimmed;
    var w' := Word(w.chars[256..], w.gap);
    CutCons(w, more);
    CutCons(w', more);
    CutLong(w.chars, AllCut(more));
    RunsCons(w, more);
    RunsCons(w', more);
    SomePieces([w'] + more);
    TrimmedCons(w.chars[..256], AllCut([w'] + more), RunsIntoEnd([w] + more));
  }

  lemma CutLong(s: string, more: seq<string>)
    requires |s| > 256
    ensures Cut(s) + more == [s[..256]] + (Cut(s[256..]) + more)
  {
  }

  lemma NothingKept()
    ensures AllCut([]) == [] && !RunsIntoEnd([]) && Trimmed([], false) == [] && Kept([]) == []
  {
  }

  lemma SomePieces(words: seq<Word>)
    requires words != []
    ensures AllCut(words) != []
  {
  }

  /** Any file of words: the loop sees every piece of every word, in order, but for a last word that
      nothing follows, of which it misses the last piece unless that is full. */
  lemma FileSeen(lead: string, words: seq<Word>)
    requires AllSpace(lead) && Separated(words)
    ensures Seen(lead + Text(words), 0) == Kept(words)
  {
    hide Seen, Text, Separated, AllSpace, Kept;
    SeenFrom("", lead, words);
    assert "" + lead == lead;
  }

  /** And every file is one of words. */
  lemma {:induction false} FileOfWords(text: string) returns (lead: string, words: seq<Word>)
    ensures AllSpace(lead) && Separated(words) && text == lead + Text(words)
    decreases |text|
  {
    hide AllSpace, NoSpace, Separated, Text;
    var e := SpaceEnd(text, 0);
    lead := text[..e];
    LeadIs(text, e);
    if e == |text| {
      words := [];
      NoWords(text);
    } else {
      var n := WordEnd(text, e, |text|);
      var gap, more := FileOfWords(text[n..]);
      WordJoined(text, e, n, gap, more);
      words := [Word(text[e..n], gap)] + more;
    }
  }

  lemma LeadIs(text: string, e: nat)
    requires e <= |text| && forall k :: 0 <= k < e ==> IsSpace(text[k])
    ensures AllSpace(text[..e])
  {
  }

  lemma NoWords(text: string)
    ensures Separated([]) && text[..|text|] + Text([]) == text
  {
  }

  lemma WordJoined(text: string, e: nat, n: nat, gap: string, more: seq<Word>)
    requires e < n <= |text| && forall k :: e <= k < n ==> !IsSpace(text[k])
    requires n < |text| ==> IsSpace(text[n])
    requires AllSpace(gap) && Separated(more) && text[n..] == gap + Text(more)
    ensures Separated([Word(text[e..n], gap)] + more)
    ensures text == text[..e] + Text([Word(text[e..n], gap)] + more)
  {
    hide Text, IsSpace, Separated;
    GapNeeded(text[n..], gap, more);
    SeparatedCons(Word(text[e..n], gap), more);
    TextCons(Word(text[e..n], gap), more);
    ThreeParts(text, e, n, gap, Text(more));
  }

  lemma SeparatedCons(w: Word, more: seq<Word>)
    requires w.chars != "" && NoSpace(w.chars) && AllSpace(w.gap) && (w.gap == "" ==> more == []) && Separated(more)
    ensures Separated([w] + more)
  {
    hide NoSpace, AllSpace;
    var words := [w] + more;
    assert forall i :: 0 < i < |words| ==> words[i] == more[i - 1];
  }

  lemma ThreeParts(text: string, e: nat, n: nat, gap: string, t: string)
    requires e <= n <= |text| && text[n..] == gap + t
    ensures text == text[..e] + (text[e..n] + gap + t)
  {
    assert text[e..n] + gap + t == text[e..n] + (gap + t);
    assert text == text[..e] + (text[e..n] + text[n..]);
  }

  lemma TextHead(more: seq<Word>)
    requires Separated(more) && more != []
    ensures Text(more) != "" && !IsSpace(Text(more)[0])
  {
  }

  lemma GapNeeded(rest: string, gap: string, more: seq<Word>)
    requires rest == gap + Text(more) && Separated(more) && (rest != "" ==> IsSpace(rest[0]))
    ensures gap == "" ==> more == []
  {
    hide Text, Separated;
    if more != [] {
      TextHead(more);
    }
    assert gap == "" ==> rest == Text(more);
  }

  /** The lines of a file: short enough, and white space behind each. */
  predicate Lines(words: seq<Word>) {
    Separated(words) && forall i :: 0 <= i < |words| ==> |words[i].chars| <= 256 && words[i].gap != ""
  }

  function Chars(words: seq<Word>): seq<string> {
    seq(|words|, i requires 0 <= i < |words| => words[i].chars)
  }

  lemma {:induction false} ShortCut(words: seq<Word>)
    requires forall i :: 0 <= i < |words| ==> |words[i].chars| <= 256
    ensures AllCut(words) == Chars(words)
    decreases words
  {
    if words != [] {
      ShortCut(words[1..]);
      assert Chars(words) == [words[0].chars] + Chars(words[1..]);
    }
  }

  /** A file of lines is seen line by line. */
  lemma LinesSeen(lead: string, words: seq<Word>)
    requires AllSpace(lead) && Lines(words)
    ensures Seen(lead + Text(words), 0) == Chars(words)
  {
    FileSeen(lead, words);
    ShortCut(words);
  }

  lemma {:induction false} CharsMore(words: seq<Word>, last: Word)
    ensures Chars(words + [last]) == Chars(words) + [last.chars]
  {
  }

  /** The last line is not seen if nothing follows it, unless it has 256 characters. */
  lemma LastLine(lead: string, words: seq<Word>, last: string)
    requires AllSpace(lead) && Lines(words) && last != "" && NoSpace(last) && |last| <= 256
    ensures Seen(lead + Text(words + [Word(last, "")]), 0) == Chars(words) + if |last| == 256 then [last] else []
  {
    hide Seen, Text, AllCut, Chars;
    var all := words + [Word(last, "")];
    LinesAndLast(words, last);
    FileSeen(lead, all);
    ShortCut(all);
    CharsMore(words, Word(last, ""));
    assert (Chars(words) + [last])[..|Chars(words)|] == Chars(words);
  }

  lemma LinesAndLast(words: seq<Word>, last: string)
    requires Lines(words) && last != "" && NoSpace(last) && |last| <= 256
    ensures
      var all := words + [Word(last, "")];
      && Separated(all) && (forall i :: 0 <= i < |all| ==> |all[i].chars| <= 256)
      && (RunsIntoEnd(all) <==> |last| < 256)
  {
    hide NoSpace;
    var all := words + [Word(last, "")];
    assert forall i :: 0 <= i < |words| ==> all[i] == words[i];
    assert all[|words|] == Word(last, "") && AllSpace("");
  }
}
