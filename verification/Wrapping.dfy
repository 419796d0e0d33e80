/** Soft wrapping for a page: lines of at most 88 characters, nothing printable lost. */
module Wrapping {
  const WRAP_COLS: nat := 88

  /** The pieces between separators, one more than there are separators. */
  function Split(s: string, sep: char): (pieces: seq<string>)
    ensures pieces != [] && forall i :: 0 <= i < |pieces| ==> sep !in pieces[i]
  {
    if s == "" then [""]
    else
      var rest := Split(s[1..], sep);
      if s[0] == sep then [""] + rest else [[s[0]] + rest[0]] + rest[1..]
  }

  function TrimReturns(s: string): string {
    if s != "" && s[|s| - 1] == '\r' then TrimReturns(s[..|s| - 1]) else s
  }

  /** Lines pushed and the line still being filled. */
  datatype Filling = Filling(pushed: seq<string>, current: string)

  /** Full columns cut off the front until what is left fits. */
  function HardSplit(current: string): (r: Filling)
    ensures |r.current| <= WRAP_COLS && forall i :: 0 <= i < |r.pushed| ==> |r.pushed[i]| == WRAP_COLS
    ensures |current| <= WRAP_COLS ==> r == Filling([], current)
    decreases |current|
  {
    if |current| <= WRAP_COLS then Filling([], current)
    else
      var rest := HardSplit(current[WRAP_COLS..]);
      Filling([current[..WRAP_COLS]] + rest.pushed, rest.current)
  }

  /** One word joined to the line, or started on the next. */
  function AddWord(current: string, word: string): Filling {
    if current == "" then HardSplit(word)
    else if |current| + 1 + |word| <= WRAP_COLS then HardSplit(current + " " + word)
    else
      var next := HardSplit(word);
      Filling([current] + next.pushed, next.current)
  }

  /** A line's words from the one being filled on. */
  function FillFrom(current: string, words: seq<string>): seq<string>
    decreases words
  {
    if words == [] then if current == "" then [] else [current]
    else
      var next := AddWord(current, words[0]);
      next.pushed + FillFrom(next.current, words[1..])
  }

  function WrapLine(raw: string): seq<string> {
    var line := TrimReturns(raw);
    if line == "" then [""] else FillFrom("", Split(line, ' '))
  }

  function WrapAll(raws: seq<string>): seq<string>
    decreases raws
  {
    if raws == [] then [] else WrapLine(raws[0]) + WrapAll(raws[1..])
  }

  function WrapLines(text: string): seq<string> {
    WrapAll(Split(text, '\n'))
  }

  // ─── The loops ───

  lemma Regroup<T>(a: seq<T>, b: seq<T>, c: seq<T>)
    ensures a + (b + c) == (a + b) + c
  {
  }

  lemma FillStep(current: string, words: seq<string>, i: nat, out: seq<string>)
    requires i < |words|
    ensures var next := AddWord(current, words[i]);
            out + FillFrom(current, words[i..]) == (out + next.pushed) + FillFrom(next.current, words[i + 1..])
  {
    hide AddWord;
    assert words[i..][0] == words[i] && words[i..][1..] == words[i + 1..];
    var next := AddWord(current, words[i]);
    Regroup(out, next.pushed, FillFrom(next.current, words[i + 1..]));
  }

  /** The inner loop: a word too long for the column is cut. */
  method SplitOverflow(line: string) returns (pushed: seq<string>, current: string)
    ensures Filling(pushed, current) == HardSplit(line)
  {
    pushed, current := [], line;
    while |current| > WRAP_COLS
      invariant HardSplit(line) == Filling(pushed + HardSplit(current).pushed, HardSplit(current).current)
      decreases |current|
    {
      assert pushed + ([current[..WRAP_COLS]] + HardSplit(current[WRAP_COLS..]).pushed)
          == (pushed + [current[..WRAP_COLS]]) + HardSplit(current[WRAP_COLS..]).pushed;
      pushed := pushed + [current[..WRAP_COLS]];
      current := current[WRAP_COLS..];
    }
  }

  method FillLine(words: seq<string>) returns (out: seq<string>)
    ensures out == FillFrom("", words)
  {
    hide HardSplit;
    out := [];
    var current := "";
    ghost var goal := FillFrom("", words);
    assert words[0..] == words;
    for i := 0 to |words|
      invariant goal == out + FillFrom(current, words[i..])
    {
      FillStep(current, words, i, out);
      var word := words[i];
      var before: seq<string> := [];
      if current == "" {
        current := word;
      } else if |current| + 1 + |word| <= WRAP_COLS {
        current := current + " " + word;
      } else {
        before := [current];
        current := word;
      }
      var pushed;
      pushed, current := SplitOverflow(current);
      Regroup(out, before, pushed);
      assert [] + pushed == pushed;
      out := out + before + pushed;
    }
    assert words[|words|..] == [];
    if current != "" {
      out := out + [current];
    } else {
      assert out + [] == out;
    }
  }

  method WrapText(text: string) returns (out: seq<string>)
    ensures out == WrapLines(text)
  {
    hide Split, FillFrom, TrimReturns;
    out := [];
    var raws := Split(text, '\n');
    ghost var goal := WrapAll(raws);
    assert raws[0..] == raws;
    for i := 0 to |raws|
      invariant goal == out + WrapAll(raws[i..])
    {
      assert raws[i..][0] == raws[i] && raws[i..][1..] == raws[i + 1..];
      Regroup(out, WrapLine(raws[i]), WrapAll(raws[i + 1..]));
      var line := TrimReturns(raws[i]);
      if line == "" {
        out := out + [""];
        continue;
      }
      var filled := FillLine(Split(line, ' '));
      out := out + filled;
    }
    assert raws[|raws|..] == [] && out + [] == out;
  }

  // ─── What wrapping keeps ───

  ghost predicate Fits(lines: seq<string>) {
    forall i :: 0 <= i < |lines| ==> |lines[i]| <= WRAP_COLS
  }

  lemma {:induction false} FillFits(current: string, words: seq<string>)
    requires |current| <= WRAP_COLS
    ensures Fits(FillFrom(current, words))
    decreases words
  {
    hide HardSplit;
    if words == [] {
    } else {
      FillFits(AddWord(current, words[0]).current, words[1..]);
    }
  }

  lemma {:induction false} WrapFits(raws: seq<string>)
    ensures Fits(WrapAll(raws))
    decreases raws
  {
    hide FillFrom, Split, TrimReturns;
    if raws == [] {
    } else {
      FillFits("", Split(TrimReturns(raws[0]), ' '));
      WrapFits(raws[1..]);
    }
  }

  /** The characters that print. */
  predicate Prints(c: char) {
    c != ' ' && c != '\n' && c != '\r'
  }

  function Ink(s: string): string {
    if s == "" then "" else (if Prints(s[0]) then [s[0]] else "") + Ink(s[1..])
  }

  function InkOf(lines: seq<string>): string
    decreases lines
  {
    if lines == [] then "" else Ink(lines[0]) + InkOf(lines[1..])
  }

  lemma {:induction false} InkConcat(a: string, b: string)
    ensures Ink(a + b) == Ink(a) + Ink(b)
  {
    hide Prints;
    if a == "" {
      assert a + b == b;
    } else {
      assert (a + b)[1..] == a[1..] + b;
      InkConcat(a[1..], b);
      Regroup(if Prints(a[0]) then [a[0]] else "", Ink(a[1..]), Ink(b));
    }
  }

  lemma {:induction false} InkOfConcat(a: seq<string>, b: seq<string>)
    ensures InkOf(a + b) == InkOf(a) + InkOf(b)
    decreases a
  {
    if a == [] {
      assert a + b == b;
    } else {
      assert (a + b)[1..] == a[1..] + b;
      InkOfConcat(a[1..], b);
    }
  }

  lemma InkOfOne(s: string)
    ensures InkOf([s]) == Ink(s)
  {
    assert [s][1..] == [];
  }

  lemma InkOne(c: char)
    ensures Ink([c]) == if Prints(c) then [c] else ""
  {
    assert [c][1..] == "";
  }

  lemma InkFirst(c: char, lines: seq<string>)
    requires lines != []
    ensures InkOf([[c] + lines[0]] + lines[1..]) == Ink([c]) + InkOf(lines)
  {
    hide Ink;
    var first, others := [c] + lines[0], lines[1..];
    InkConcat([c], lines[0]);
    assert ([first] + others)[1..] == others;
    Regroup(Ink([c]), Ink(lines[0]), InkOf(others));
  }

  lemma {:induction false} SplitInk(s: string, sep: char)
    requires !Prints(sep)
    ensures InkOf(Split(s, sep)) == Ink(s)
  {
    hide Prints;
    if s == "" {
      InkOfOne("");
    } else {
      SplitInk(s[1..], sep);
      InkOne(s[0]);
      var rest := Split(s[1..], sep);
      if s[0] == sep {
        InkOfConcat([""], rest);
        InkOfOne("");
      } else {
        InkFirst(s[0], rest);
      }
    }
  }

  lemma {:induction false} TrimInk(s: string)
    ensures Ink(TrimReturns(s)) == Ink(s)
  {
    if s == "" || s[|s| - 1] != '\r' {
    } else {
      TrimInk(s[..|s| - 1]);
      InkConcat(s[..|s| - 1], "\r");
      assert s == s[..|s| - 1] + "\r";
      assert Ink("\r") == "" by {
        assert "\r"[1..] == "";
      }
    }
  }

  lemma {:induction false} HardSplitInk(s: string)
    ensures InkOf(HardSplit(s).pushed) + Ink(HardSplit(s).current) == Ink(s)
    decreases |s|
  {
    if |s| <= WRAP_COLS {
    } else {
      var first, rest := s[..WRAP_COLS], HardSplit(s[WRAP_COLS..]);
      HardSplitInk(s[WRAP_COLS..]);
      InkConcat(first, s[WRAP_COLS..]);
      assert s == first + s[WRAP_COLS..];
      InkOfConcat([first], rest.pushed);
      InkOfOne(first);
    }
  }

  lemma AddWordInk(current: string, word: string)
    ensures InkOf(AddWord(current, word).pushed) + Ink(AddWord(current, word).current) == Ink(current) + Ink(word)
  {
    hide HardSplit;
    HardSplitInk(word);
    HardSplitInk(current + " " + word);
    InkConcat(current + " ", word);
    InkConcat(current, " ");
    assert Ink(" ") == "" by {
      assert " "[1..] == "";
    }
    InkOfConcat([current], HardSplit(word).pushed);
    InkOfOne(current);
  }

  lemma {:induction false} FillInk(current: string, words: seq<string>)
    ensures InkOf(FillFrom(current, words)) == Ink(current) + InkOf(words)
    decreases words
  {
    hide AddWord, Ink;
    NoInk();
    if words == [] {
      InkOfOne(current);
    } else {
      var next := AddWord(current, words[0]);
      AddWordInk(current, words[0]);
      FillInk(next.current, words[1..]);
      InkOfConcat(next.pushed, FillFrom(next.current, words[1..]));
      Regroup(InkOf(next.pushed), Ink(next.current), InkOf(words[1..]));
      Regroup(Ink(current), Ink(words[0]), InkOf(words[1..]));
    }
  }

  lemma WrapLineInk(raw: string)
    ensures InkOf(WrapLine(raw)) == Ink(raw)
  {
    hide FillFrom, Split, TrimReturns, Ink;
    var line := TrimReturns(raw);
    TrimInk(raw);
    if line == "" {
      InkOfOne("");
    } else {
      FillInk("", Split(line, ' '));
      SplitInk(line, ' ');
      NoInk();
    }
  }

  lemma NoInk()
    ensures Ink("") == ""
  {
  }

  lemma {:induction false} WrapInk(raws: seq<string>)
    ensures InkOf(WrapAll(raws)) == InkOf(raws)
    decreases raws
  {
    hide WrapLine, Ink;
    if raws == [] {
    } else {
      WrapInk(raws[1..]);
      InkOfConcat(WrapLine(raws[0]), WrapAll(raws[1..]));
      WrapLineInk(raws[0]);
    }
  }

  /** For every text: no line is over 88 characters, and every printing character is kept, in order. */
  lemma WrapKeeps(text: string)
    ensures Fits(WrapLines(text)) && InkOf(WrapLines(text)) == Ink(text)
  {
    hide WrapAll, Split;
    WrapFits(Split(text, '\n'));
    WrapInk(Split(text, '\n'));
    SplitInk(text, '\n');
  }

  // ─── Lines that vanish ───

  predicate AllBlank(s: string) {
    forall i :: 0 <= i < |s| ==> s[i] == ' '
  }

  lemma {:induction false} SomethingLeft(word: string)
    requires word != ""
    ensures HardSplit(word).current != ""
    decreases |word|
  {
    if |word| <= WRAP_COLS {
    } else {
      SomethingLeft(word[WRAP_COLS..]);
    }
  }

  ghost predicate AllEmpty(words: seq<string>) {
    forall i :: 0 <= i < |words| ==> words[i] == ""
  }

  lemma {:induction false} FillsNothing(current: string, words: seq<string>)
    ensures FillFrom(current, words) == [] <==> current == "" && AllEmpty(words)
    decreases words
  {
    hide HardSplit;
    if words == [] {
    } else {
      var word := words[0];
      if word != "" {
        SomethingLeft(word);
      }
      if current != "" {
        SomethingLeft(current + " " + word);
      }
      FillsNothing(AddWord(current, word).current, words[1..]);
      assert AllEmpty(words) <==> word == "" && AllEmpty(words[1..]) by {
        FirstEmpty(words);
      }
    }
  }

  lemma FirstEmpty(words: seq<string>)
    requires words != []
    ensures AllEmpty(words) <==> words[0] == "" && AllEmpty(words[1..])
  {
    if words[0] == "" && AllEmpty(words[1..]) {
      assert forall i :: 1 <= i < |words| ==> words[i] == words[1..][i - 1];
    }
  }

  lemma {:induction false} BlankSplits(s: string)
    ensures AllEmpty(Split(s, ' ')) <==> AllBlank(s)
  {
    if s == "" {
    } else {
      BlankSplits(s[1..]);
      FirstEmpty(Split(s, ' '));
      assert AllBlank(s) <==> s[0] == ' ' && AllBlank(s[1..]) by {
        FirstBlank(s);
      }
      if s[0] == ' ' {
        assert Split(s, ' ')[1..] == Split(s[1..], ' ');
      }
    }
  }

  lemma FirstBlank(s: string)
    requires s != ""
    ensures AllBlank(s) <==> s[0] == ' ' && AllBlank(s[1..])
  {
    if s[0] == ' ' && AllBlank(s[1..]) {
      assert forall i :: 1 <= i < |s| ==> s[i] == s[1..][i - 1];
    }
  }

  /** A line of the text gives no line of the page exactly when it is blanks and nothing else, and not empty. */
  lemma BlankLineVanishes(raw: string)
    ensures WrapLine(raw) == [] <==> TrimReturns(raw) != "" && AllBlank(TrimReturns(raw))
  {
    hide FillFrom, Split, TrimReturns;
    FillsNothing("", Split(TrimReturns(raw), ' '));
    BlankSplits(TrimReturns(raw));
  }

  /** The shortest text that has a line and leaves none, beside the empty text, which leaves one. */
  lemma BlankTextVanishes()
    ensures WrapLines(" ") == [] && WrapLines("") == [""]
  {
    hide WrapLine, TrimReturns;
    assert Split(" ", '\n') == [" "] by {
      assert " "[1..] == "" && [' '] + "" == " ";
    }
    assert [" "][1..] == [] && [""][1..] == [];
    assert TrimReturns(" ") == " " && TrimReturns("") == "" by {
      NoReturns();
    }
    BlankLineVanishes(" ");
    assert WrapLine("") == [""] by {
      EmptyLineStays();
    }
  }

  lemma NoReturns()
    ensures TrimReturns(" ") == " " && TrimReturns("") == ""
  {
  }

  lemma EmptyLineStays()
    ensures WrapLine("") == [""]
  {
  }

  // ─── Words stay whole ───

  function NonEmpty(pieces: seq<string>): (r: seq<string>)
    ensures forall w :: w in r ==> w in pieces && w != ""
    decreases pieces
  {
    if pieces == [] then [] else (if pieces[0] == "" then [] else [pieces[0]]) + NonEmpty(pieces[1..])
  }

  /** The words of a line, however many blanks stand between them. */
  function LineWords(line: string): seq<string> {
    NonEmpty(Split(line, ' '))
  }

  function WordsOf(lines: seq<string>): seq<string>
    decreases lines
  {
    if lines == [] then [] else LineWords(lines[0]) + WordsOf(lines[1..])
  }

  /** A word as the lines hold it: one that fits a line is one piece, a longer one is cut into columns. */
  function Pieces(word: string): (r: seq<string>)
    ensures 1 <= |word| <= WRAP_COLS ==> r == [word]
  {
    if word == "" then [] else HardSplit(word).pushed + [HardSplit(word).current]
  }

  function Cut(words: seq<string>): seq<string>
    decreases words
  {
    if words == [] then [] else Pieces(words[0]) + Cut(words[1..])
  }

  ghost predicate Blankless(words: seq<string>) {
    forall i :: 0 <= i < |words| ==> ' ' !in words[i]
  }

  lemma {:induction false} SplitNowhere(s: string, sep: char)
    requires sep !in s
    ensures Split(s, sep) == [s]
  {
    if s == "" {
    } else {
      SplitNowhere(s[1..], sep);
      assert [s[0]] + s[1..] == s;
    }
  }

  lemma SplitStep(c: char, s: string, sep: char)
    ensures var rest := Split(s, sep);
            Split([c] + s, sep) == if c == sep then [""] + rest else [[c] + rest[0]] + rest[1..]
  {
    assert ([c] + s)[1..] == s;
  }

  lemma {:induction false} SplitBetween(a: string, sep: char, b: string)
    ensures Split(a + ([sep] + b), sep) == Split(a, sep) + Split(b, sep)
  {
    hide Split;
    if a == "" {
      SplitNowhere("", sep);
      SplitStep(sep, b, sep);
      assert a + ([sep] + b) == [sep] + b;
    } else {
      SplitBetween(a[1..], sep, b);
      SplitStep(a[0], a[1..], sep);
      SplitStep(a[0], a[1..] + ([sep] + b), sep);
      assert a + ([sep] + b) == [a[0]] + (a[1..] + ([sep] + b)) && a == [a[0]] + a[1..];
      FirstJoined(a[0], Split(a[1..], sep), Split(b, sep));
    }
  }

  lemma FirstJoined(c: char, rest: seq<string>, more: seq<string>)
    requires rest != []
    ensures (rest + more)[0] == rest[0]
    ensures [[c] + rest[0]] + (rest + more)[1..] == ([[c] + rest[0]] + rest[1..]) + more
    ensures [""] + (rest + more) == ([""] + rest) + more
  {
  }

  lemma {:induction false} NonEmptyConcat(a: seq<string>, b: seq<string>)
    ensures NonEmpty(a + b) == NonEmpty(a) + NonEmpty(b)
    decreases a
  {
    if a == [] {
      assert a + b == b;
    } else {
      assert (a + b)[1..] == a[1..] + b;
      NonEmptyConcat(a[1..], b);
    }
  }

  lemma {:induction false} WordsOfConcat(a: seq<string>, b: seq<string>)
    ensures WordsOf(a + b) == WordsOf(a) + WordsOf(b)
    decreases a
  {
    hide LineWords;
    if a == [] {
      assert a + b == b;
    } else {
      assert (a + b)[1..] == a[1..] + b;
      WordsOfConcat(a[1..], b);
      Regroup(LineWords(a[0]), WordsOf(a[1..]), WordsOf(b));
    }
  }

  lemma WordsOfOne(line: string)
    ensures WordsOf([line]) == LineWords(line)
  {
    hide LineWords;
    assert [line][1..] == [] && LineWords(line) + [] == LineWords(line);
  }

  lemma OneWord(word: string)
    requires ' ' !in word
    ensures LineWords(word) == if word == "" then [] else [word]
  {
    hide Split;
    SplitNowhere(word, ' ');
    assert [word][1..] == [] && NonEmpty([word][1..]) == [];
    assert [word] + [] == [word];
  }

  lemma JoinedWords(current: string, word: string)
    ensures LineWords(current + " " + word) == LineWords(current) + LineWords(word)
  {
    hide Split, NonEmpty;
    SplitBetween(current, ' ', word);
    assert current + " " + word == current + ([' '] + word);
    NonEmptyConcat(Split(current, ' '), Split(word, ' '));
  }

  /** Every column of an overlong word is a line of its own, and what is left is a word. */
  lemma {:induction false} HardSplitWords(word: string)
    requires ' ' !in word && word != ""
    ensures WordsOf(HardSplit(word).pushed) + LineWords(HardSplit(word).current) == Pieces(word)
    ensures HardSplit(word).current != ""
    decreases |word|
  {
    hide LineWords;
    if |word| <= WRAP_COLS {
      OneWord(word);
      assert [] + [word] == [word];
    } else {
      var first, rest := word[..WRAP_COLS], HardSplit(word[WRAP_COLS..]);
      HardSplitWords(word[WRAP_COLS..]);
      OneWord(first);
      WordsOfOne(first);
      WordsOfConcat([first], rest.pushed);
      Regroup([first], WordsOf(rest.pushed), LineWords(rest.current));
      Regroup([first], rest.pushed, [rest.current]);
    }
  }

  lemma AddWordWords(current: string, word: string)
    requires ' ' !in word
    ensures var next := AddWord(current, word);
            WordsOf(next.pushed) + LineWords(next.current) == LineWords(current) + Pieces(word)
  {
    hide LineWords, HardSplit;
    NothingWords(current, word);
    if word != "" {
      HardSplitWords(word);
    } else {
      OneWord("");
    }
    if current != "" && |current| + 1 + |word| <= WRAP_COLS {
      JoinedWords(current, word);
      OneWord(word);
      assert Pieces(word) == LineWords(word);
    } else if current != "" {
      var next := HardSplit(word);
      WordsOfConcat([current], next.pushed);
      WordsOfOne(current);
      Regroup(LineWords(current), WordsOf(next.pushed), LineWords(next.current));
    }
  }

  lemma NothingWords(current: string, word: string)
    ensures LineWords("") == [] && [] + Pieces(word) == Pieces(word) && LineWords(current) + [] == LineWords(current)
    ensures WordsOf([]) == [] && [] + LineWords(current + " " + word) == LineWords(current + " " + word)
    ensures [] + LineWords(word) == LineWords(word)
  {
    OneWord("");
  }

  lemma {:induction false} FillWords(current: string, words: seq<string>)
    requires Blankless(words)
    ensures WordsOf(FillFrom(current, words)) == LineWords(current) + Cut(words)
    decreases words
  {
    hide AddWord, LineWords, Pieces;
    if words == [] {
      WordsOfOne(current);
      NothingWords(current, "");
      assert LineWords(current) + [] == LineWords(current);
    } else {
      var next := AddWord(current, words[0]);
      AddWordWords(current, words[0]);
      FillWords(next.current, words[1..]);
      WordsOfConcat(next.pushed, FillFrom(next.current, words[1..]));
      Regroup(WordsOf(next.pushed), LineWords(next.current), Cut(words[1..]));
      Regroup(LineWords(current), Pieces(words[0]), Cut(words[1..]));
    }
  }

  /** For every paragraph: the lines' words are the paragraph's, in order, only those over a line's length cut. */
  lemma ParagraphWhole(words: seq<string>)
    requires Blankless(words)
    ensures WordsOf(FillFrom("", words)) == Cut(words)
  {
    hide LineWords;
    FillWords("", words);
    NothingWords("", "");
    assert [] + Cut(words) == Cut(words);
  }

  /** The words between the blanks and line ends of a text. */
  function WordsIn(raws: seq<string>): seq<string>
    decreases raws
  {
    if raws == [] then [] else Split(TrimReturns(raws[0]), ' ') + WordsIn(raws[1..])
  }

  lemma {:induction false} CutConcat(a: seq<string>, b: seq<string>)
    ensures Cut(a + b) == Cut(a) + Cut(b)
    decreases a
  {
    hide Pieces;
    if a == [] {
      assert a + b == b;
    } else {
      assert (a + b)[1..] == a[1..] + b;
      CutConcat(a[1..], b);
      Regroup(Pieces(a[0]), Cut(a[1..]), Cut(b));
    }
  }

  lemma WrapLineWords(raw: string)
    ensures WordsOf(WrapLine(raw)) == Cut(Split(TrimReturns(raw), ' '))
  {
    hide FillFrom, TrimReturns, LineWords;
    var line := TrimReturns(raw);
    ParagraphWhole(Split(line, ' '));
    if line == "" {
      WordsOfOne("");
      NothingWords("", "");
      assert Split("", ' ') == [""] && [""][1..] == [];
    }
  }

  lemma {:induction false} WrapWords(raws: seq<string>)
    ensures WordsOf(WrapAll(raws)) == Cut(WordsIn(raws))
    decreases raws
  {
    hide WrapLine, LineWords, Pieces;
    if raws == [] {
    } else {
      WrapWords(raws[1..]);
      WrapLineWords(raws[0]);
      WordsOfConcat(WrapLine(raws[0]), WrapAll(raws[1..]));
      CutConcat(Split(TrimReturns(raws[0]), ' '), WordsIn(raws[1..]));
    }
  }

  lemma {:induction false} CutKeeps(words: seq<string>, word: string)
    requires word in words && 1 <= |word| <= WRAP_COLS
    ensures word in Cut(words)
    decreases words
  {
    hide Pieces;
    if word == words[0] {
      assert Pieces(word) == [word];
    } else {
      CutKeeps(words[1..], word);
    }
  }

  lemma {:induction false} InSomeLine(lines: seq<string>, word: string)
    requires word in WordsOf(lines)
    ensures exists i :: 0 <= i < |lines| && word in Split(lines[i], ' ')
    decreases lines
  {
    if word in LineWords(lines[0]) {
      assert word in Split(lines[0], ' ');
    } else {
      InSomeLine(lines[1..], word);
      var i :| 0 <= i < |lines[1..]| && word in Split(lines[1..][i], ' ');
      assert lines[i + 1] == lines[1..][i];
    }
  }

  /** For every text: its words are kept in order, and each of 1 to 88 characters stands unbroken in some line. */
  lemma WordsStandWhole(text: string)
    ensures WordsOf(WrapLines(text)) == Cut(WordsIn(Split(text, '\n')))
    ensures forall word :: word in WordsIn(Split(text, '\n')) && 1 <= |word| <= WRAP_COLS ==>
              exists i :: 0 <= i < |WrapLines(text)| && word in Split(WrapLines(text)[i], ' ')
  {
    hide WordsOf, Cut, WordsIn, WrapAll, Split;
    var raws := Split(text, '\n');
    WrapWords(raws);
    forall word | word in WordsIn(raws) && 1 <= |word| <= WRAP_COLS
      ensures exists i :: 0 <= i < |WrapLines(text)| && word in Split(WrapLines(text)[i], ' ')
    {
      CutKeeps(WordsIn(raws), word);
      InSomeLine(WrapLines(text), word);
    }
  }

  // ─── Lines are filled ───

  /** The text of a line up to its first blank. */
  function FirstWord(line: string): string {
    Split(line, ' ')[0]
  }

  /** The line could not have taken the first word of the next one. */
  ghost predicate FullAt(lines: seq<string>, i: nat)
    requires i + 1 < |lines|
  {
    |lines[i]| + 1 + |FirstWord(lines[i + 1])| > WRAP_COLS
  }

  ghost predicate Full(lines: seq<string>) {
    forall i: nat :: i + 1 < |lines| ==> FullAt(lines, i)
  }

  lemma FullBehind(line: string, lines: seq<string>)
    requires Full(lines) && (lines != [] ==> |line| + 1 + |FirstWord(lines[0])| > WRAP_COLS)
    ensures Full([line] + lines)
  {
    hide FirstWord;
    var all := [line] + lines;
    forall i: nat | i + 1 < |all|
      ensures FullAt(all, i)
    {
      assert i > 0 ==> FullAt(lines, i - 1);
    }
  }

  lemma {:induction false} FullColumns(columns: seq<string>, lines: seq<string>)
    requires Full(lines) && forall i :: 0 <= i < |columns| ==> |columns[i]| == WRAP_COLS
    ensures Full(columns + lines)
    decreases columns
  {
    hide FirstWord, Full;
    if columns == [] {
      assert columns + lines == lines;
    } else {
      FullColumns(columns[1..], lines);
      FullBehind(columns[0], columns[1..] + lines);
      assert columns + lines == [columns[0]] + (columns[1..] + lines);
    }
  }

  lemma FirstOfJoined(current: string, word: string)
    ensures FirstWord(current + " " + word) == FirstWord(current)
  {
    hide Split;
    SplitBetween(current, ' ', word);
    assert current + " " + word == current + ([' '] + word);
  }

  lemma FirstOfWord(word: string)
    requires ' ' !in word
    ensures FirstWord(word) == word
  {
    hide Split;
    SplitNowhere(word, ' ');
  }

  /** What a cut word leaves, and what its first column is. */
  lemma CutOf(word: string)
    requires ' ' !in word
    ensures var r := HardSplit(word);
            ' ' !in r.current && (word != "" ==> r.current != "") &&
            (|word| > WRAP_COLS ==> r.pushed != [] && FirstWord(r.pushed[0]) == r.pushed[0])
    decreases |word|
  {
    hide FirstWord;
    if |word| <= WRAP_COLS {
    } else {
      CutOf(word[WRAP_COLS..]);
      FirstOfWord(word[..WRAP_COLS]);
    }
  }

  /** How a filled paragraph begins: with the line in hand, or else with a word. */
  ghost predicate BeginsWith(lines: seq<string>, current: string) {
    if current == "" then lines != [] ==> FirstWord(lines[0]) != ""
    else lines != [] && FirstWord(lines[0]) == FirstWord(current)
  }

  lemma FewFull(current: string)
    ensures Full([]) && Full([current])
  {
  }

  /** One word further: the line in hand is pushed only when the word did not fit, a cut word fills its columns. */
  lemma StepFull(current: string, word: string, lines: seq<string>)
    requires |current| <= WRAP_COLS && ' ' !in word && Full(lines) && (current != "" ==> FirstWord(current) != "")
    requires current == "" || |current| + 1 + |word| > WRAP_COLS
    requires BeginsWith(lines, HardSplit(word).current)
    ensures var cut := HardSplit(word);
            Full((if current == "" then [] else [current]) + (cut.pushed + lines)) &&
            BeginsWith((if current == "" then [] else [current]) + (cut.pushed + lines), current)
  {
    hide FirstWord, Full, HardSplit;
    var cut := HardSplit(word);
    var behind := cut.pushed + lines;
    CutOf(word);
    FirstOfWord(word);
    FirstOfWord(cut.current);
    FullColumns(cut.pushed, lines);
    assert |word| <= WRAP_COLS ==> behind == lines;
    if current == "" {
      assert [] + behind == behind;
    } else {
      FullBehind(current, behind);
    }
  }

  lemma FillsInto(current: string, words: seq<string>)
    requires words != []
    ensures var word := words[0];
            FillFrom(current, words) ==
            if current != "" && |current| + 1 + |word| <= WRAP_COLS then FillFrom(current + " " + word, words[1..])
            else (if current == "" then [] else [current]) +
                 (HardSplit(word).pushed + FillFrom(HardSplit(word).current, words[1..]))
  {
    hide HardSplit;
    var cut := HardSplit(words[0]);
    Regroup([current], cut.pushed, FillFrom(cut.current, words[1..]));
    assert [] + (cut.pushed + FillFrom(cut.current, words[1..])) == cut.pushed + FillFrom(cut.current, words[1..]);
  }

  lemma {:induction false} FillFull(current: string, words: seq<string>)
    requires |current| <= WRAP_COLS && Blankless(words) && (current != "" ==> FirstWord(current) != "")
    ensures Full(FillFrom(current, words)) && BeginsWith(FillFrom(current, words), current)
    decreases words
  {
    hide FirstWord, Full, HardSplit, AddWord;
    if words == [] {
      FewFull(current);
    } else {
      var word := words[0];
      FillsInto(current, words);
      if current != "" && |current| + 1 + |word| <= WRAP_COLS {
        FirstOfJoined(current, word);
        FillFull(current + " " + word, words[1..]);
      } else {
        var left := HardSplit(word).current;
        CutOf(word);
        FirstOfWord(left);
        FillFull(left, words[1..]);
        StepFull(current, word, FillFrom(left, words[1..]));
      }
    }
  }

  /**
   Within a line of the text, no line of the page could have taken the first word of the next: the two and a blank
   between exceed 88 characters.
   */
  lemma LinesFull(raw: string)
    ensures Full(WrapLine(raw))
  {
    hide FillFrom, Split, TrimReturns, FirstWord;
    FillFull("", Split(TrimReturns(raw), ' '));
  }

  /** A line of the text loses the carriage returns at its end, all of them and nothing else. */
  lemma {:induction false} ReturnsTrimmed(raw: string) returns (tail: string)
    ensures raw == TrimReturns(raw) + tail && forall i :: 0 <= i < |tail| ==> tail[i] == '\r'
    ensures var line := TrimReturns(raw);
            line != "" ==> line[|line| - 1] != '\r'
  {
    tail := "";
    if raw != "" && raw[|raw| - 1] == '\r' {
      var more := ReturnsTrimmed(raw[..|raw| - 1]);
      tail := more + "\r";
    }
  }

  // ─── Lines that stay as they are ───

  function Rejoined(current: string, words: seq<string>): string
    decreases words
  {
    if words == [] then current else Rejoined(current + " " + words[0], words[1..])
  }

  lemma {:induction false} RejoinedFront(a: string, b: string, words: seq<string>)
    ensures Rejoined(a + b, words) == a + Rejoined(b, words) && |Rejoined(b, words)| >= |b|
    decreases words
  {
    if words == [] {
    } else {
      assert a + b + " " + words[0] == a + (b + " " + words[0]);
      RejoinedFront(a, b + " " + words[0], words[1..]);
    }
  }

  lemma {:induction false} SplitRejoins(s: string)
    ensures Rejoined(Split(s, ' ')[0], Split(s, ' ')[1..]) == s
  {
    hide Rejoined;
    if s == "" {
      assert Split(s, ' ')[1..] == [];
      RejoinedNone("");
    } else {
      SplitRejoins(s[1..]);
      var rest := Split(s[1..], ' ');
      assert s == [s[0]] + s[1..];
      if s[0] == ' ' {
        assert Split(s, ' ')[1..] == rest;
        RejoinedOne("", rest);
        assert "" + " " + rest[0] == " " + rest[0];
        RejoinedFront(" ", rest[0], rest[1..]);
      } else {
        RejoinedFront([s[0]], rest[0], rest[1..]);
      }
    }
  }

  lemma RejoinedNone(current: string)
    ensures Rejoined(current, []) == current
  {
  }

  lemma RejoinedOne(current: string, words: seq<string>)
    requires words != []
    ensures Rejoined(current, words) == Rejoined(current + " " + words[0], words[1..])
  {
  }

  lemma {:induction false} FillRejoins(current: string, words: seq<string>)
    requires current != "" && |Rejoined(current, words)| <= WRAP_COLS
    ensures FillFrom(current, words) == [Rejoined(current, words)]
    decreases words
  {
    hide HardSplit;
    if words == [] {
    } else {
      RejoinedFront("", current + " " + words[0], words[1..]);
      assert |current + " " + words[0]| <= WRAP_COLS;
      FillRejoins(current + " " + words[0], words[1..]);
    }
  }

  /** A line of the text is a line of the page, blanks and all, exactly when it fits and begins with no blank. */
  lemma LineStays(raw: string)
    ensures var line := TrimReturns(raw);
            WrapLine(raw) == [line] <==> line == "" || (|line| <= WRAP_COLS && line[0] != ' ')
  {
    hide FillFrom, TrimReturns, Full, Rejoined;
    var line := TrimReturns(raw);
    if line != "" {
      var words := Split(line, ' ');
      FillFits("", words);
      FillFull("", words);
      SplitRejoins(line);
      if line[0] != ' ' && |line| <= WRAP_COLS {
        RejoinedFront("", words[0], words[1..]);
        FirstJoins(words);
        FillRejoins(words[0], words[1..]);
      }
    }
  }

  lemma FirstJoins(words: seq<string>)
    requires words != [] && words[0] != "" && |words[0]| <= WRAP_COLS
    ensures FillFrom("", words) == FillFrom(words[0], words[1..])
  {
    assert [] + FillFrom(words[0], words[1..]) == FillFrom(words[0], words[1..]);
  }
}
