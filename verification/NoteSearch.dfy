/** The one-pass substring matcher of notesearch: what it finds is there, and the keywords for
    which it finds everything that is there. */
module NoteSearch {

  predicate StandsAt(note: string, i: nat, keyword: string) {
    i + |keyword| <= |note| && note[i..i + |keyword|] == keyword
  }

  /** The keyword stands somewhere in the note. */
  ghost predicate Occurs(note: string, keyword: string) {
    exists i: nat :: StandsAt(note, i, keyword)
  }

  ghost predicate EndsWith(note: string, s: string) {
    |s| <= |note| && note[|note| - |s|..] == s
  }

  /** How many characters match after one more; a complete match stays. */
  function Next(keyword: string, matched: nat, c: char): nat
    requires keyword != ""
  {
    if matched >= |keyword| then matched
    else if c == keyword[matched] then matched + 1
    else if c == keyword[0] then 1 else 0
  }

  function Scan(note: string, keyword: string): (matched: nat)
    requires keyword != ""
    ensures matched <= |keyword|
  {
    if note == "" then 0 else Next(keyword, Scan(note[..|note| - 1], keyword), note[|note| - 1])
  }

  function Finds(note: string, keyword: string): bool {
    keyword == "" || Scan(note, keyword) == |keyword|
  }

  /** search_note */
  method SearchNote(note: string, keyword: string) returns (found: nat)
    ensures found == if Finds(note, keyword) then 1 else 0
    ensures found == 1 ==> Occurs(note, keyword)
  {
    var matched := 0;
    var keywordLength := |keyword|;
    if keywordLength == 0 {
      assert StandsAt(note, 0, keyword);
      return 1;
    }
    var i := 0;
    while i < |note|
      invariant i <= |note| && matched == Scan(note[..i], keyword) < |keyword|
    {
      assert note[..i + 1][..i] == note[..i];
      if note[i] == keyword[matched] {
        matched := matched + 1;
      } else {
        if note[i] == keyword[0] {
          matched := 1;
        } else {
          matched := 0;
        }
      }
      i := i + 1;
      if matched == keywordLength {
        Found(note, keyword, i);
        return 1;
      }
    }
    assert note[..i] == note;
    return 0;
  }

  // ---------------------------------------------------------------- soundness

  lemma ScanLast(note: string, keyword: string)
    requires keyword != "" && note != ""
    ensures Scan(note, keyword) == Next(keyword, Scan(note[..|note| - 1], keyword), note[|note| - 1])
  {
  }

  lemma EndsWithNone(note: string, keyword: string)
    ensures EndsWith(note, keyword[..0])
  {
  }

  /** One more character, and what Next makes of it. */
  lemma NextIsSuffix(before: string, keyword: string, m: nat, c: char)
    requires m < |keyword| && EndsWith(before, keyword[..m])
    ensures Next(keyword, m, c) <= |keyword| && EndsWith(before + [c], keyword[..Next(keyword, m, c)])
  {
    hide EndsWith;
    EndsWithNone(before, keyword);
    EndsWithNone(before + [c], keyword);
    if c == keyword[m] {
      SuffixMore(before, keyword, m, c);
    } else if c == keyword[0] {
      SuffixMore(before, keyword, 0, c);
    }
  }

  /** Along the way the matched characters are the last ones read. */
  lemma {:induction false} MatchIsSuffix(note: string, keyword: string)
    requires keyword != "" && Scan(note, keyword) < |keyword|
    ensures EndsWith(note, keyword[..Scan(note, keyword)])
    decreases note
  {
    hide EndsWith, Scan;
    if note == "" {
      EndsWithNone(note, keyword);
      NothingScanned(keyword);
    } else {
      var before, c := note[..|note| - 1], note[|note| - 1];
      ScanLast(note, keyword);
      MatchIsSuffix(before, keyword);
      NextIsSuffix(before, keyword, Scan(before, keyword), c);
      assert before + [c] == note;
    }
  }

  lemma NothingScanned(keyword: string)
    requires keyword != ""
    ensures Scan("", keyword) == 0
  {
  }

  lemma SuffixMore(before: string, keyword: string, m: nat, c: char)
    requires m < |keyword| && c == keyword[m]
    ensures EndsWith(before + [c], keyword[..m + 1]) <==> EndsWith(before, keyword[..m])
  {
    var note := before + [c];
    assert keyword[..m + 1] == keyword[..m] + [c];
    if m <= |before| {
      assert note[|note| - (m + 1)..] == before[|before| - m..] + [c];
    }
    if EndsWith(note, keyword[..m + 1]) {
      assert before[|before| - m..] == note[|note| - (m + 1)..][..m] == keyword[..m];
    }
  }

  /** The character that completes a match. */
  lemma Completed(note: string, keyword: string)
    requires keyword != "" && note != "" && Scan(note, keyword) == |keyword| > Scan(note[..|note| - 1], keyword)
    ensures Occurs(note, keyword)
  {
    hide EndsWith, Scan, StandsAt;
    var before, c := note[..|note| - 1], note[|note| - 1];
    var m := Scan(before, keyword);
    ScanLast(note, keyword);
    MatchIsSuffix(before, keyword);
    NextIsSuffix(before, keyword, m, c);
    assert before + [c] == note && keyword[..m + 1] == keyword;
    EndStands(note, keyword);
  }

  lemma EndStands(note: string, keyword: string)
    requires EndsWith(note, keyword)
    ensures |keyword| <= |note| && StandsAt(note, |note| - |keyword|, keyword)
  {
    assert note[|note| - |keyword|..|note|] == note[|note| - |keyword|..];
  }

  /** A complete match stays complete, and stands where it was completed. */
  lemma {:induction false} Found(note: string, keyword: string, i: nat)
    requires keyword != "" && i <= |note| && Scan(note[..i], keyword) == |keyword|
    ensures Scan(note, keyword) == |keyword| && Occurs(note, keyword)
    decreases |note|
  {
    if i < |note| {
      assert note[..|note| - 1][..i] == note[..i];
      Found(note[..|note| - 1], keyword, i);
      OccursMore(note[..|note| - 1], keyword, note);
    } else {
      assert note[..i] == note;
      var before := note[..|note| - 1];
      if Scan(before, keyword) == |keyword| {
        assert before[..|note| - 1] == before;
        Found(before, keyword, |note| - 1);
        OccursMore(before, keyword, note);
      } else {
        Completed(note, keyword);
      }
    }
  }

  lemma OccursMore(before: string, keyword: string, note: string)
    requires before <= note && Occurs(before, keyword)
    ensures Occurs(note, keyword)
  {
    var i: nat :| StandsAt(before, i, keyword);
    assert note[i..i + |keyword|] == before[i..i + |keyword|];
    assert StandsAt(note, i, keyword);
  }

  // ---------------------------------------------------------------- completeness

  /** Wherever the keyword repeats its own start, it goes on as it started. */
  ghost predicate GoesOn(keyword: string) {
    forall k: nat, b: nat :: 1 <= b < k < |keyword| && StandsAt(keyword[..k], k - b, keyword[..b]) ==>
      keyword[b] == keyword[k]
  }

  /** No more characters match than the scan counts. */
  ghost predicate Longest(note: string, keyword: string, m: nat) {
    forall j: nat :: m < j <= |keyword| ==> !EndsWith(note, keyword[..j])
  }

  lemma BothEnd(note: string, a: string, b: string)
    requires EndsWith(note, a) && EndsWith(note, b) && |b| <= |a|
    ensures StandsAt(a, |a| - |b|, b)
  {
    var d := |a| - |b|;
    assert a[d..|a|] == note[|note| - |a|..][d..] == note[|note| - |b|..];
  }

  lemma LastCharacter(before: string, keyword: string, c: char, j: nat)
    requires 0 < j <= |keyword| && EndsWith(before + [c], keyword[..j])
    ensures c == keyword[j - 1]
  {
    assert (before + [c])[|before|] == keyword[..j][j - 1];
  }

  /** A longer suffix after one more character would have been a longer one before it. */
  lemma NoLonger(before: string, keyword: string, m: nat, c: char, j: nat)
    requires keyword != "" && GoesOn(keyword) && m < |keyword| && Next(keyword, m, c) < j <= |keyword|
    requires EndsWith(before, keyword[..m]) && Longest(before, keyword, m)
    ensures !EndsWith(before + [c], keyword[..j])
  {
    hide EndsWith, StandsAt;
    if EndsWith(before + [c], keyword[..j]) {
      var b := j - 1;
      LastCharacter(before, keyword, c, j);
      SuffixMore(before, keyword, b, c);
      assert b <= m;
      if 1 <= b < m {
        BorderOf(before, keyword, m, b);
      }
      assert false;
    }
  }

  lemma BorderOf(note: string, keyword: string, m: nat, b: nat)
    requires b <= m <= |keyword| && EndsWith(note, keyword[..m]) && EndsWith(note, keyword[..b])
    ensures StandsAt(keyword[..m], m - b, keyword[..b])
  {
    hide EndsWith, StandsAt;
    BothEnd(note, keyword[..m], keyword[..b]);
  }

  lemma LongestStep(before: string, keyword: string, m: nat, c: char)
    requires keyword != "" && GoesOn(keyword) && m < |keyword|
    requires EndsWith(before, keyword[..m]) && Longest(before, keyword, m)
    ensures Longest(before + [c], keyword, Next(keyword, m, c))
  {
    hide GoesOn, EndsWith, Next;
    forall j: nat | Next(keyword, m, c) < j <= |keyword|
      ensures !EndsWith(before + [c], keyword[..j])
    {
      NoLonger(before, keyword, m, c, j);
    }
  }

  lemma LongestNone(keyword: string)
    ensures Longest("", keyword, 0)
  {
  }

  lemma {:induction false} ScanIsLongest(note: string, keyword: string)
    requires keyword != "" && GoesOn(keyword) && Scan(note, keyword) < |keyword|
    ensures Longest(note, keyword, Scan(note, keyword))
    decreases note
  {
    hide GoesOn, EndsWith, Longest, Scan;
    if note == "" {
      NothingScanned(keyword);
      LongestNone(keyword);
    } else {
      var before, c := note[..|note| - 1], note[|note| - 1];
      ScanLast(note, keyword);
      ScanIsLongest(before, keyword);
      MatchIsSuffix(before, keyword);
      LongestStep(before, keyword, Scan(before, keyword), c);
      assert before + [c] == note;
    }
  }

  /** A keyword that goes on as it started is found wherever it stands. */
  lemma Complete(note: string, keyword: string)
    requires GoesOn(keyword) && Occurs(note, keyword)
    ensures Finds(note, keyword)
  {
    hide GoesOn;
    if keyword != "" {
      var i: nat :| StandsAt(note, i, keyword);
      var upTo := note[..i + |keyword|];
      assert upTo[|upTo| - |keyword|..] == keyword == keyword[..|keyword|];
      if Scan(upTo, keyword) < |keyword| {
        ScanIsLongest(upTo, keyword);
      }
      Found(note, keyword, i + |keyword|);
    }
  }

  // ---------------------------------------------------------------- incompleteness

  lemma {:induction false} ScanPrefix(keyword: string, j: nat)
    requires keyword != "" && j <= |keyword|
    ensures Scan(keyword[..j], keyword) == j
    decreases j
  {
    if j > 0 {
      ScanPrefix(keyword, j - 1);
      assert keyword[..j][..j - 1] == keyword[..j - 1];
    }
  }

  lemma {:induction false} ScanGrows(note: string, keyword: string, j: nat)
    requires keyword != "" && j <= |note|
    ensures Scan(note[..j], keyword) + |note| - j < |keyword| ==> Scan(note, keyword) <= Scan(note[..j], keyword) + |note| - j
    decreases |note|
  {
    if j == |note| {
      assert note[..j] == note;
    } else {
      assert note[..|note| - 1][..j] == note[..j];
      ScanGrows(note[..|note| - 1], keyword, j);
    }
  }

  /** Where the keyword does not go on, the note that has it right there is missed. */
  lemma Missed(keyword: string, k: nat, b: nat)
    requires 1 <= b < k < |keyword| && StandsAt(keyword[..k], k - b, keyword[..b]) && keyword[b] != keyword[k]
    ensures
      var note := keyword[..k - b] + keyword;
      Occurs(note, keyword) && !Finds(note, keyword)
  {
    hide Scan, StandsAt;
    var note := keyword[..k - b] + keyword;
    Shifted(keyword, k, b);
    ScanPrefix(keyword, k);
    assert note[..k + 1][..k] == note[..k] && note[..k + 1][k] == keyword[b];
    ScanLast(note[..k + 1], keyword);
    assert Scan(note[..k + 1], keyword) <= 1;
    ScanGrows(note, keyword, k + 1);
  }

  lemma Shifted(keyword: string, k: nat, b: nat)
    requires 1 <= b < k < |keyword| && StandsAt(keyword[..k], k - b, keyword[..b])
    ensures
      var note := keyword[..k - b] + keyword;
      StandsAt(note, k - b, keyword) && |note| > k && note[..k] == keyword[..k] && note[k] == keyword[b]
  {
    var note := keyword[..k - b] + keyword;
    assert keyword[..k] == keyword[..k - b] + keyword[..b];
    assert note[..k] == keyword[..k - b] + keyword[..b];
  }

  /** The matcher finds every occurrence of exactly the keywords that go on as they started. */
  lemma CompleteIff(keyword: string)
    ensures (forall note :: Occurs(note, keyword) ==> Finds(note, keyword)) <==> GoesOn(keyword)
  {
    hide Scan;
    if GoesOn(keyword) {
      forall note | Occurs(note, keyword)
        ensures Finds(note, keyword)
      {
        Complete(note, keyword);
      }
    } else {
      var k: nat, b: nat :| 1 <= b < k < |keyword| && StandsAt(keyword[..k], k - b, keyword[..b]) && keyword[b] != keyword[k];
      Missed(keyword, k, b);
    }
  }

  lemma StartAgain(keyword: string, k: nat, b: nat)
    requires 1 <= b < k < |keyword| && StandsAt(keyword[..k], k - b, keyword[..b])
    ensures keyword[k - b] == keyword[0]
  {
    assert keyword[..k][k - b..k - b + b][0] == keyword[..b][0];
  }

  /** In particular those whose first character does not come again. */
  lemma FirstCharacterUnique(keyword: string)
    requires forall k :: 0 < k < |keyword| ==> keyword[k] != keyword[0]
    ensures GoesOn(keyword)
  {
    if !GoesOn(keyword) {
      var k: nat, b: nat :| 1 <= b < k < |keyword| && StandsAt(keyword[..k], k - b, keyword[..b]) && keyword[b] != keyword[k];
      StartAgain(keyword, k, b);
    }
  }

  /** "aab" is not found in "aaab". */
  lemma MissesAab()
    ensures Occurs("aaab", "aab") && !Finds("aaab", "aab")
  {
    var keyword := "aab";
    assert keyword[..2] == "aa" && "aa"[1..2] == "a" && keyword[..1] == "a";
    Missed(keyword, 2, 1);
    assert "a" + keyword == "aaab";
  }

  // ---------------------------------------------------------------- every keyword and note

  /** What the matcher gives up on: the first n characters of the keyword and a character that neither
      goes on nor starts again, or the first n characters in front of a new start. */
  datatype Piece = Broken(n: nat, c: char) | Cut(n: nat)

  predicate Fine(keyword: string, e: Piece) {
    match e
    case Broken(n, c) => n < |keyword| && c != keyword[n] && c != keyword[0]
    case Cut(n) => 1 <= n < |keyword| && keyword[n] != keyword[0]
  }

  /** What stands behind a cut starts with the keyword's first character. */
  predicate AllFine(keyword: string, es: seq<Piece>) {
    && (forall i :: 0 <= i < |es| ==> Fine(keyword, es[i]))
    && forall i :: 0 < i < |es| && es[i - 1].Cut? ==> es[i].n >= 1
  }

  function PieceText(keyword: string, e: Piece): string
    requires e.n <= |keyword|
  {
    keyword[..e.n] + if e.Broken? then [e.c] else ""
  }

  function Text(keyword: string, es: seq<Piece>): string
    requires forall e :: e in es ==> e.n <= |keyword|
  {
    if es == [] then "" else Text(keyword, es[..|es| - 1]) + PieceText(keyword, es[|es| - 1])
  }

  lemma FineText(keyword: string, es: seq<Piece>)
    requires AllFine(keyword, es)
    ensures forall e :: e in es ==> e.n <= |keyword|
  {
  }

  /** The characters counted behind the pieces. */
  function Counted(es: seq<Piece>): nat {
    if es == [] || es[|es| - 1].Broken? then 0 else es[|es| - 1].n
  }

  lemma ScanMore(note: string, keyword: string, c: char)
    requires keyword != ""
    ensures Scan(note + [c], keyword) == Next(keyword, Scan(note, keyword), c)
  {
    assert (note + [c])[..|note|] == note;
  }

  /** From nothing, or from where the first character starts again, the keyword is counted from its
      first character on. */
  lemma {:induction false} CountsOn(note: string, keyword: string, j: nat)
    requires 1 <= j <= |keyword| && Scan(note, keyword) < |keyword|
    requires Scan(note, keyword) == 0 || keyword[Scan(note, keyword)] != keyword[0]
    ensures Scan(note + keyword[..j], keyword) == j
    decreases j
  {
    hide Scan;
    assert note + keyword[..j] == (note + keyword[..j - 1]) + [keyword[j - 1]];
    ScanMore(note + keyword[..j - 1], keyword, keyword[j - 1]);
    if j == 1 {
      assert note + keyword[..0] == note;
    } else {
      CountsOn(note, keyword, j - 1);
    }
  }

  lemma {:induction false} PiecesScanned(keyword: string, es: seq<Piece>)
    requires keyword != "" && AllFine(keyword, es)
    ensures forall e :: e in es ==> e.n <= |keyword|
    ensures Scan(Text(keyword, es), keyword) == Counted(es) < |keyword|
    ensures Counted(es) == 0 || keyword[Counted(es)] != keyword[0]
    decreases es
  {
    hide Scan;
    FineText(keyword, es);
    if es == [] {
      NothingScanned(keyword);
    } else {
      var init, e := es[..|es| - 1], es[|es| - 1];
      PiecesScanned(keyword, init);
      var before := Text(keyword, init);
      assert Fine(keyword, e);
      if e.n > 0 {
        CountsOn(before, keyword, e.n);
      } else {
        assert before + keyword[..0] == before;
      }
      if e.Broken? {
        ScanMore(before + keyword[..e.n], keyword, e.c);
        assert Text(keyword, es) == (before + keyword[..e.n]) + [e.c];
      } else {
        assert Text(keyword, es) == before + keyword[..e.n];
      }
    }
  }

  /** Pieces, and what is counted behind them. */
  ghost predicate Cuts(note: string, keyword: string, es: seq<Piece>, j: nat) {
    && j <= |keyword| && AllFine(keyword, es) && (es != [] && es[|es| - 1].Cut? ==> j >= 1)
    && (forall e :: e in es ==> e.n <= |keyword|) && note == Text(keyword, es) + keyword[..j]
  }

  lemma CutsMore(note: string, keyword: string, es: seq<Piece>, j: nat, e: Piece, j': nat, c: char)
    requires Cuts(note, keyword, es, j) && j < |keyword| && Fine(keyword, e) && e.n == j
    requires if e.Broken? then c == e.c && j' == 0 else c == keyword[0] && j' == 1
    ensures Cuts(note + [c], keyword, es + [e], j')
  {
    var all := es + [e];
    assert all[..|es|] == es;
    assert forall i :: 0 <= i < |es| ==> all[i] == es[i];
    assert Text(keyword, all) == Text(keyword, es) + PieceText(keyword, e);
    assert keyword[..1] == [keyword[0]];
    assert note + [c] == Text(keyword, all) + keyword[..j'];
  }

  lemma {:induction false} CutUp(note: string, keyword: string) returns (es: seq<Piece>, j: nat)
    requires keyword != "" && Scan(note, keyword) < |keyword|
    ensures Cuts(note, keyword, es, j) && j == Scan(note, keyword)
    decreases note
  {
    hide Scan, Cuts;
    if note == "" {
      NothingScanned(keyword);
      es, j := [], 0;
      CutsNone(keyword);
    } else {
      var before, c := note[..|note| - 1], note[|note| - 1];
      assert note == before + [c];
      ScanMore(before, keyword, c);
      es, j := CutUp(before, keyword);
      if c == keyword[j] {
        CutsNext(before, keyword, es, j);
        j := j + 1;
      } else if c == keyword[0] {
        CutsMore(before, keyword, es, j, Cut(j), 1, c);
        es, j := es + [Cut(j)], 1;
      } else {
        CutsMore(before, keyword, es, j, Broken(j, c), 0, c);
        es, j := es + [Broken(j, c)], 0;
      }
    }
  }

  lemma CutsNone(keyword: string)
    ensures Cuts("", keyword, [], 0)
  {
  }

  lemma CutsNext(note: string, keyword: string, es: seq<Piece>, j: nat)
    requires Cuts(note, keyword, es, j) && j < |keyword|
    ensures Cuts(note + [keyword[j]], keyword, es, j + 1)
  {
    assert keyword[..j + 1] == keyword[..j] + [keyword[j]];
    assert (Text(keyword, es) + keyword[..j]) + [keyword[j]] == Text(keyword, es) + keyword[..j + 1];
  }

  /** The keyword stands behind such pieces. */
  ghost predicate StandsBehind(note: string, keyword: string, es: seq<Piece>, rest: string) {
    && AllFine(keyword, es) && (forall e :: e in es ==> e.n <= |keyword|)
    && note == Text(keyword, es) + keyword + rest
  }

  /** For every keyword and every note: it is found exactly if the note is made of such pieces, the
      keyword, and anything behind it. */
  lemma FoundIff(note: string, keyword: string)
    requires keyword != ""
    ensures Finds(note, keyword) <==> exists es, rest :: StandsBehind(note, keyword, es, rest)
  {
    hide Scan, Text, AllFine;
    if Finds(note, keyword) {
      FirstFound(note, keyword);
    }
    forall es, rest | StandsBehind(note, keyword, es, rest)
      ensures Finds(note, keyword)
    {
      PiecesScanned(keyword, es);
      CountsOn(Text(keyword, es), keyword, |keyword|);
      var upTo := Text(keyword, es) + keyword;
      assert note[..|upTo|] == upTo && keyword[..|keyword|] == keyword;
      Found(note, keyword, |upTo|);
    }
  }

  lemma {:induction false} FirstFound(note: string, keyword: string)
    requires keyword != "" && Scan(note, keyword) == |keyword|
    ensures exists es, rest :: StandsBehind(note, keyword, es, rest)
    decreases note
  {
    hide Scan, Text, AllFine;
    if note == "" {
      NothingScanned(keyword);
    } else {
      var before, c := note[..|note| - 1], note[|note| - 1];
      assert note == before + [c];
      if Scan(before, keyword) == |keyword| {
        FirstFound(before, keyword);
        var es, rest :| StandsBehind(before, keyword, es, rest);
        assert note == Text(keyword, es) + keyword + (rest + [c]);
        assert StandsBehind(note, keyword, es, rest + [c]);
      } else {
        ScanMore(before, keyword, c);
        var es, j := CutUp(before, keyword);
        assert keyword[..j] + [c] == keyword;
        assert note == Text(keyword, es) + keyword + "";
        assert StandsBehind(note, keyword, es, "");
      }
    }
  }
}
