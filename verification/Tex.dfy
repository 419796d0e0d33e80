/** LaTeX escaping on export against LaTeX reading on import. */
module Tex {
  import opened Results
  import opened Search

  // ─── Escaping ───

  // Joined from pieces: the prover unfolds a literal character by character, and long ones are dear.
  const BACKSLASH_WORD := "text" + ("back" + "slash")
  const TILDE_WORD := "text" + ("ascii" + "tilde")

  function EscapeChar(c: char): string {
    match c
    case '\\' => "\\" + (BACKSLASH_WORD + "{}")
    case '{' => "\\{"
    case '}' => "\\}"
    case '$' => "\\$"
    case '#' => "\\#"
    case '%' => "\\%"
    case '^' => "\\^{}"
    case '&' => "\\&"
    case '_' => "\\_"
    case '~' => "\\" + (TILDE_WORD + "{}")
    case _ => [c]
  }

  function Escape(s: string): string {
    if s == "" then "" else EscapeChar(s[0]) + Escape(s[1..])
  }

  method EscapeLoop(s: string) returns (o: string)
    ensures o == Escape(s)
  {
    hide EscapeChar;
    o := "";
    ghost var goal := Escape(s);
    assert s[0..] == s;
    for i := 0 to |s|
      invariant goal == o + Escape(s[i..])
    {
      EscapeStep(s[i..], o);
      assert s[i..][1..] == s[i + 1..];
      o := o + EscapeChar(s[i]);
    }
  }

  lemma EscapeStep(s: string, o: string)
    requires s != ""
    ensures o + Escape(s) == o + EscapeChar(s[0]) + Escape(s[1..])
  {
    hide EscapeChar;
  }

  // ─── Reading ───

  predicate IsAlpha(c: char) {
    'a' <= c <= 'z' || 'A' <= c <= 'Z'
  }

  /** Letters at the front. */
  function WordLen(s: string): (n: nat)
    ensures n <= |s|
  {
    if s == "" || !IsAlpha(s[0]) then 0 else 1 + WordLen(s[1..])
  }

  predicate IsBlank(c: char) {
    c == ' ' || c == '\t' || c == '\n'
  }

  function SkipBlanks(s: string): (t: string)
    ensures |t| <= |s| && t == s[|s| - |t|..]
  {
    if s != "" && IsBlank(s[0]) then SkipBlanks(s[1..]) else s
  }

  /** After a command word: blanks and a star. */
  function SkipAfterWord(s: string): (t: string)
    ensures |t| <= |s| && t == s[|s| - |t|..]
  {
    if s != "" && (s[0] == ' ' || s[0] == '\t' || s[0] == '*') then SkipAfterWord(s[1..]) else s
  }

  /** Characters up to the bracket that closes `depth` open ones, itself included; nothing when none does. */
  function CloseOf(s: string, depth: nat): (r: Option<nat>)
    requires depth >= 1
    ensures r.Some? ==> 1 <= r.value <= |s|
  {
    if s == "" then None
    else if s[0] == '}' && depth == 1 then Some(1)
    else
      var rest := CloseOf(s[1..], if s[0] == '{' then depth + 1 else if s[0] == '}' then depth - 1 else depth);
      if rest.None? then None else Some(rest.value + 1)
  }

  datatype Group = Group(inner: string, rest: string)

  /**
   The group at the front, blanks before it skipped; an empty one when there is none; nothing when it never
   closes.
   */
  function Braced(s: string): (r: Option<Group>)
    ensures r.Some? ==> |r.value.inner| <= |s| && |r.value.rest| <= |s| && r.value.rest == s[|s| - |r.value.rest|..]
    ensures r.Some? && s != "" && s[0] == '{' ==> |r.value.inner| < |s| && |r.value.rest| < |s|
  {
    var t := SkipBlanks(s);
    if t == "" || t[0] != '{' then Some(Group("", t))
    else
      var n := CloseOf(t[1..], 1);
      if n.None? then None else Some(Group(t[1..n.value], t[1 + n.value..]))
  }

  const STYLE_WORDS := ["textbf", "mathbf", "textsc", "textit", "emph", "textsl", "texttt", "underline"]
  const LINK_WORDS := ["textsuperscript", "textsubscript", "href", "url", "footnote"]
  const CITE_WORDS := ["cite", "citep", "citet", "citeauthor", "citeyear", "citealt", "citealp", "citenum", "Citep",
                       "Citet"]
  const REF_WORDS := ["ref", "eqref", "autoref", "cref", "Cref", "pageref", "label", "vref", "nameref"]
  const MARK_WORDS := ["LaTeX", "TeX", "dots", "ldots", "cdots", "textquotedblleft", "textquotedblright"]

  predicate Listed(word: string, words: seq<string>)
    decreases |word| + |words|
  {
    words != [] && (word == words[0] || Listed(word, words[1..]))
  }

  /** Command words with an arm of their own, the backslash aside: those listed, letters and accents. */
  predicate HasOwnArm(word: string) {
    |word| <= 2 || Listed(word, STYLE_WORDS) || Listed(word, LINK_WORDS) || Listed(word, CITE_WORDS) ||
    Listed(word, REF_WORDS) || Listed(word, MARK_WORDS)
  }

  /** A character after a backslash that stands for a piece of text by itself. */
  function SymbolPiece(c: char): string {
    match c
    case '\\' => "  \n"
    case '~' => " "
    case ',' => " "
    case ';' => " "
    case '!' => " "
    case '.' => " "
    case ':' => " "
    case _ => [c]
  }

  predicate IsAccent(c: char) {
    c == '\'' || c == '`' || c == '^' || c == '"'
  }

  /** What stands before the text that is left. */
  function Onto(piece: string, rest: Option<string>): Option<string> {
    if rest.None? then None else Some(piece + rest.value)
  }

  /**
   The reader's loop, before ligatures. Nothing is returned where it would take an arm that is not modelled:
   inline math, a command word with an arm of its own, an accent over a letter, a group that never closes.
   */
  function Read(s: string): Option<string>
    decreases |s|, 0
  {
    if s == "" then Some("")
    else if s[0] == '$' then None
    else if s[0] == '{' || s[0] == '}' then Read(s[1..])
    else if s[0] != '\\' then Onto([s[0]], Read(s[1..]))
    else if |s| == 1 then Some("")
    else if IsAlpha(s[1]) then ReadWord(s[1..][..WordLen(s[1..])], SkipAfterWord(s[1..][WordLen(s[1..])..]))
    else if IsAccent(s[1]) then ReadAccent(s[2..])
    else Onto(SymbolPiece(s[1]), Read(s[2..]))
  }

  /** After a command word; `s` is what follows it. */
  function ReadWord(word: string, s: string): Option<string>
    decreases |s|, 1
  {
    if word == BACKSLASH_WORD then Onto("\\", Read(s))
    else if HasOwnArm(word) then None
    else if s != "" && s[0] == '{' then
      var group := Braced(s);
      if group.None? then None
      else
        var inner := Read(group.value.inner);
        if inner.None? then None else Onto(Ligatures(inner.value), Read(group.value.rest))
    else Read(s)
  }

  /** After an accent: only an accent over nothing is modelled, and it yields nothing. */
  function ReadAccent(s: string): Option<string>
    decreases |s|, 1
  {
    var t := SkipBlanks(s);
    if t == "" then Some("")
    else if t[0] != '{' then None
    else
      var group := Braced(t);
      if group.None? || group.value.inner != "" then None else Read(group.value.rest)
  }

  /** `str::replace`: left to right, without overlap. */
  function Replace(s: string, pat: string, with: string): string
    requires pat != ""
  {
    if |s| < |pat| then s
    else if s[..|pat|] == pat then with + Replace(s[|pat|..], pat, with)
    else [s[0]] + Replace(s[1..], pat, with)
  }

  function Ligatures(s: string): string {
    var a := Replace(s, "---", "\U{2014}");
    var b := Replace(a, "--", "\U{2013}");
    var c := Replace(b, "``", "\U{201C}");
    Replace(c, "''", "\U{201D}")
  }

  function ToMarkdown(s: string): Option<string> {
    var out := Read(s);
    if out.None? then None else Some(Ligatures(out.value))
  }

  // ─── The reader as it runs ───

  lemma OntoOnto(a: string, b: string, rest: Option<string>)
    ensures Onto(a, Onto(b, rest)) == Onto(a + b, rest)
  {
    if rest.Some? {
      assert a + (b + rest.value) == (a + b) + rest.value;
    }
  }

  lemma OntoNothing(r: Option<string>)
    ensures Onto("", r) == r
  {
    if r.Some? {
      assert "" + r.value == r.value;
    }
  }

  lemma TailOfTail(s: string, i: nat, k: nat)
    requires i + k <= |s|
    ensures s[i..][k..] == s[i + k..]
  {
  }

  /** A suffix of a suffix, by the place it starts. */
  lemma Resume(s: string, i: nat, t: string)
    requires i <= |s| && |t| <= |s[i..]| && t == s[i..][|s[i..]| - |t|..]
    ensures i <= |s| - |t| && s[|s| - |t|..] == t
  {
  }

  /** What a piece read up to `j` makes of the text from `i` on. */
  ghost predicate Reads(fragment: string, i: nat, piece: Option<string>, j: nat)
    requires i <= |fragment|
  {
    i < j <= |fragment| &&
    Read(fragment[i..]) == if piece.None? then None else Onto(piece.value, Read(fragment[j..]))
  }

  /** The loop over a cursor, with the arms above. */
  method ReadLoop(fragment: string) returns (r: Option<string>)
    ensures r == ToMarkdown(fragment)
    decreases |fragment|, 2
  {
    hide Ligatures, Read;
    var i := 0;
    var out := "";
    ghost var goal := Read(fragment);
    assert fragment[0..] == fragment;
    OntoNothing(goal);
    while i < |fragment|
      invariant 0 <= i <= |fragment| && goal == Onto(out, Read(fragment[i..]))
    {
      ReadPlain(fragment, i);
      if fragment[i] == '$' {
        return None;
      }
      if fragment[i] != '\\' {
        if fragment[i] != '{' && fragment[i] != '}' {
          OntoOnto(out, [fragment[i]], Read(fragment[i + 1..]));
          out := out + [fragment[i]];
        }
        i := i + 1;
        continue;
      }
      if i + 1 >= |fragment| {
        assert out + "" == out;
        return Some(Ligatures(out));
      }
      var piece, j := ReadCommand(fragment, i);
      if piece.None? {
        return None;
      }
      OntoOnto(out, piece.value, Read(fragment[j..]));
      out := out + piece.value;
      i := j;
    }
    assert fragment[i..] == "";
    ReadNothing();
    assert out + "" == out;
    r := Some(Ligatures(out));
  }

  lemma ReadNothing()
    ensures Read("") == Some("")
  {
  }

  lemma ReadPlain(fragment: string, i: nat)
    requires i < |fragment|
    ensures var c := fragment[i];
            (c == '$' ==> Read(fragment[i..]) == None) &&
            (c == '{' || c == '}' ==> Read(fragment[i..]) == Read(fragment[i + 1..])) &&
            (c !in {'$', '{', '}', '\\'} ==> Read(fragment[i..]) == Onto([c], Read(fragment[i + 1..]))) &&
            (c == '\\' && i + 1 == |fragment| ==> Read(fragment[i..]) == Some(""))
  {
    assert fragment[i..][1..] == fragment[i + 1..];
  }

  /** What reading from a backslash comes to, by the character behind it. */
  lemma AtBackslash(s: string)
    requires |s| >= 2 && s[0] == '\\'
    ensures IsAlpha(s[1]) ==> Read(s) == ReadWord(s[1..][..WordLen(s[1..])], SkipAfterWord(s[1..][WordLen(s[1..])..]))
    ensures !IsAlpha(s[1]) && IsAccent(s[1]) ==> Read(s) == ReadAccent(s[2..])
    ensures !IsAlpha(s[1]) && !IsAccent(s[1]) ==> Read(s) == Onto(SymbolPiece(s[1]), Read(s[2..]))
  {
    hide ReadWord, ReadAccent, SymbolPiece, WordLen, SkipAfterWord, IsAlpha, IsAccent;
  }

  /** A backslash and what it commands. */
  method ReadCommand(fragment: string, i: nat) returns (piece: Option<string>, j: nat)
    requires i + 1 < |fragment| && fragment[i] == '\\'
    ensures Reads(fragment, i, piece, j)
    decreases |fragment|, 1
  {
    hide Read, ReadWord, ReadAccent, SymbolPiece, WordLen, SkipAfterWord, IsAlpha, IsAccent, Onto;
    var start := i + 1;
    AtBackslash(fragment[i..]);
    TailOfTail(fragment, i, 1);
    TailOfTail(fragment, i, 2);
    if IsAlpha(fragment[start]) {
      var k := WordEnd(fragment, start);
      var word := fragment[start..k];
      var after := BlanksEnd(fragment, k);
      assert fragment[start..][..k - start] == word;
      TailOfTail(fragment, start, k - start);
      piece, j := WordPiece(fragment, word, after);
    } else if IsAccent(fragment[start]) {
      piece, j := AccentPiece(fragment, start + 1);
    } else {
      piece, j := Some(SymbolPiece(fragment[start])), start + 1;
    }
  }

  method WordEnd(fragment: string, start: nat) returns (k: nat)
    requires start <= |fragment|
    ensures start <= k <= |fragment| && k - start == WordLen(fragment[start..])
  {
    k := start;
    while k < |fragment| && IsAlpha(fragment[k])
      invariant start <= k <= |fragment| && WordLen(fragment[start..]) == k - start + WordLen(fragment[k..])
    {
      assert fragment[k..][1..] == fragment[k + 1..];
      k := k + 1;
    }
  }

  method BlanksEnd(fragment: string, from: nat) returns (k: nat)
    requires from <= |fragment|
    ensures from <= k <= |fragment| && fragment[k..] == SkipAfterWord(fragment[from..])
  {
    k := from;
    while k < |fragment| && (fragment[k] == ' ' || fragment[k] == '\t' || fragment[k] == '*')
      invariant from <= k <= |fragment| && SkipAfterWord(fragment[from..]) == SkipAfterWord(fragment[k..])
    {
      assert fragment[k..][1..] == fragment[k + 1..];
      k := k + 1;
    }
  }

  /** The arm of a command word; the text behind it starts at `k`. */
  method WordPiece(fragment: string, word: string, k: nat) returns (piece: Option<string>, j: nat)
    requires k <= |fragment| && 0 < k
    ensures k <= j <= |fragment|
    ensures ReadWord(word, fragment[k..]) == if piece.None? then None else Onto(piece.value, Read(fragment[j..]))
    decreases |fragment|, 0
  {
    hide Read, HasOwnArm, Ligatures, Braced;
    j := k;
    if word == BACKSLASH_WORD {
      return Some("\\"), k;
    }
    if HasOwnArm(word) {
      return None, k;
    }
    if k < |fragment| && fragment[k] == '{' {
      var group := Braced(fragment[k..]);
      if group.None? {
        return None, k;
      }
      var inner := ReadLoop(group.value.inner);
      Resume(fragment, k, group.value.rest);
      return inner, |fragment| - |group.value.rest|;
    }
    OntoNothing(Read(fragment[k..]));
    return Some(""), k;
  }

  method AccentPiece(fragment: string, k: nat) returns (piece: Option<string>, j: nat)
    requires k <= |fragment|
    ensures k <= j <= |fragment|
    ensures ReadAccent(fragment[k..]) == if piece.None? then None else Onto(piece.value, Read(fragment[j..]))
  {
    hide Read, Braced, SkipBlanks;
    var t := SkipBlanks(fragment[k..]);
    if t == "" {
      assert fragment[|fragment|..] == "";
      ReadNothing();
      OntoNothing(Some(""));
      return Some(""), |fragment|;
    }
    if t[0] != '{' {
      return None, k;
    }
    var group := Braced(t);
    if group.None? || group.value.inner != "" {
      return None, k;
    }
    Resume(fragment, k, t);
    Resume(fragment, |fragment| - |t|, group.value.rest);
    OntoNothing(Read(group.value.rest));
    return Some(""), |fragment| - |group.value.rest|;
  }

  // ─── What reading makes of an escaped text ───

  predicate IsLost(c: char) {
    c == '^' || c == '~'
  }

  /** The text without the two characters escaping cannot bring back. */
  function Kept(s: string): (t: string)
    ensures |t| <= |s|
  {
    if s == "" then "" else (if IsLost(s[0]) then "" else [s[0]]) + Kept(s[1..])
  }

  lemma {:induction false} WordEnds(w: string, t: string)
    requires (forall i :: 0 <= i < |w| ==> IsAlpha(w[i])) && (t == "" || !IsAlpha(t[0]))
    ensures WordLen(w + t) == |w|
  {
    if w == "" {
      assert w + t == t;
    } else {
      assert (w + t)[1..] == w[1..] + t;
      WordEnds(w[1..], t);
    }
  }

  lemma NoBlankFirst(s: string)
    requires s != "" && s[0] == '{'
    ensures SkipAfterWord(s) == s && SkipBlanks(s) == s
  {
  }

  lemma ClosesAtOnce(s: string)
    requires s != "" && s[0] == '}'
    ensures CloseOf(s, 1) == Some(1)
  {
  }

  lemma EmptyBraced(s: string, t: string)
    requires |s| >= 2 && s[0] == '{' && s[1] == '}' && s[2..] == t
    ensures Braced(s) == Some(Group("", t))
  {
    hide SkipBlanks, CloseOf;
    NoBlankFirst(s);
    ClosesAtOnce(s[1..]);
    assert s[1..1] == "";
  }

  lemma BracesSkipped(s: string, t: string)
    requires |s| >= 2 && s[0] == '{' && s[1] == '}' && s[2..] == t
    ensures Read(s) == Read(t)
  {
    hide ReadWord, ReadAccent, SymbolPiece;
    assert s[1..][1..] == t && s[1..][0] == '}';
  }

  lemma EmptyGroup(t: string)
    ensures Braced("{}" + t) == Some(Group("", t))
    ensures SkipAfterWord("{}" + t) == "{}" + t && SkipBlanks("{}" + t) == "{}" + t
    ensures Read("{}" + t) == Read(t)
  {
    hide Read, Braced, SkipAfterWord, SkipBlanks;
    var s := "{}" + t;
    assert s[0] == '{' && s[1] == '}' && s[2..] == t;
    NoBlankFirst(s);
    EmptyBraced(s, t);
    BracesSkipped(s, t);
  }

  lemma ReadsCommand(s: string, w: string, after: string)
    requires |s| >= 2 && s[0] == '\\' && s[1..] == w + after && IsAlpha(s[1]) && WordLen(w + after) == |w|
    ensures Read(s) == ReadWord(w, SkipAfterWord(after))
  {
    hide ReadWord, WordLen, SkipAfterWord, ReadAccent, SymbolPiece;
    assert (w + after)[..|w|] == w && (w + after)[|w|..] == after;
  }

  /** A command word before an empty group. */
  lemma ReadsWord(w: string, t: string)
    requires w != "" && forall i :: 0 <= i < |w| ==> IsAlpha(w[i])
    ensures Read("\\" + (w + "{}") + t) == ReadWord(w, "{}" + t)
  {
    hide ReadWord, WordLen, Read, SkipAfterWord;
    var after := "{}" + t;
    WordEnds(w, after);
    EmptyGroup(t);
    var s := "\\" + (w + "{}") + t;
    assert s[1..] == w + after;
    assert s[1] == w[0];
    ReadsCommand(s, w, after);
  }

  lemma WordsAreLetters()
    ensures |BACKSLASH_WORD| == 13 && |TILDE_WORD| == 14
    ensures forall i :: 0 <= i < 13 ==> IsAlpha(BACKSLASH_WORD[i])
    ensures forall i :: 0 <= i < 14 ==> IsAlpha(TILDE_WORD[i])
  {
    LettersConcat("back", "slash");
    LettersConcat("text", "back" + "slash");
    LettersConcat("ascii", "tilde");
    LettersConcat("text", "ascii" + "tilde");
  }

  lemma LettersConcat(a: string, b: string)
    requires forall i :: 0 <= i < |a| ==> IsAlpha(a[i])
    requires forall i :: 0 <= i < |b| ==> IsAlpha(b[i])
    ensures forall i :: 0 <= i < |a + b| ==> IsAlpha((a + b)[i])
  {
  }

  lemma ReadsBackslash(t: string)
    ensures Read("\\" + (BACKSLASH_WORD + "{}") + t) == Onto("\\", Read(t))
  {
    hide Read, BACKSLASH_WORD, IsAlpha;
    WordsAreLetters();
    ReadsWord(BACKSLASH_WORD, t);
    EmptyGroup(t);
  }

  lemma {:induction false} NotListed(word: string, words: seq<string>)
    requires forall i :: 0 <= i < |words| ==> |words[i]| != |word|
    ensures !Listed(word, words)
    decreases |words|
  {
    if words == [] {
    } else {
      NotListed(word, words[1..]);
    }
  }

  lemma NoOwnArm(w: string)
    requires |w| == 14
    ensures !HasOwnArm(w)
  {
    NotListed(w, STYLE_WORDS);
    NotListed(w, LINK_WORDS);
    NotListed(w, CITE_WORDS);
    NotListed(w, REF_WORDS);
    NotListed(w, MARK_WORDS);
  }

  lemma ReadsTilde(t: string)
    ensures Read("\\" + (TILDE_WORD + "{}") + t) == Read(t)
  {
    hide Read, BACKSLASH_WORD, TILDE_WORD, IsAlpha, HasOwnArm, Ligatures;
    WordsAreLetters();
    ReadsWord(TILDE_WORD, t);
    NoOwnArm(TILDE_WORD);
    EmptyGroup(t);
    ReadNothing();
    EmptyLigatures();
    OntoNothing(Read(t));
  }

  lemma EmptyLigatures()
    ensures Ligatures("") == ""
  {
  }

  lemma ReadsCaret(t: string)
    ensures Read("\\^{}" + t) == Read(t)
  {
    hide Read, ReadWord, WordLen, SymbolPiece, Braced, SkipBlanks, SkipAfterWord;
    var s := "\\^{}" + t;
    assert s[1] == '^' && s[2..] == "{}" + t;
    AtBackslash(s);
    EmptyGroup(t);
  }

  /** What every symbol command spells: the spacing ones a blank, a line break its own, the others their character. */
  lemma SymbolsRead(c: char, t: string)
    requires !IsAlpha(c) && c !in {'\'', '`', '^', '"'}
    ensures Read(['\\', c] + t) ==
            Onto(if c == '\\' then "  \n" else if c in {'~', ',', ';', '!', '.', ':'} then " " else [c], Read(t))
  {
    hide Read, ReadWord, ReadAccent, WordLen, SkipAfterWord;
    var s := ['\\', c] + t;
    assert s[1] == c && s[2..] == t;
    AtBackslash(s);
  }

  lemma ReadsPlain(c: char, t: string)
    requires c !in {'\\', '{', '}', '$'}
    ensures Read([c] + t) == Onto([c], Read(t))
  {
    hide ReadWord, ReadAccent, SymbolPiece;
    assert ([c] + t)[1..] == t;
  }

  /** Each escaped character reads as itself, but for the two that are lost. */
  lemma ReadsChar(c: char, t: string)
    ensures Read(EscapeChar(c) + t) == Onto(if IsLost(c) then "" else [c], Read(t))
  {
    hide Read;
    OntoNothing(Read(t));
    if c == '\\' {
      ReadsBackslash(t);
    } else if c == '^' {
      ReadsCaret(t);
    } else if c == '~' {
      ReadsTilde(t);
    } else if c in {'{', '}', '$', '#', '%', '&', '_'} {
      SymbolsRead(c, t);
      assert EscapeChar(c) == ['\\', c];
    } else {
      ReadsPlain(c, t);
    }
  }

  /** For every text: what is read back is the text without the two lost characters, before ligatures. */
  lemma {:induction false} ReadsEscaped(s: string)
    ensures Read(Escape(s)) == Some(Kept(s))
  {
    hide Read, EscapeChar;
    if s == "" {
      ReadNothing();
    } else {
      ReadsEscaped(s[1..]);
      ReadsChar(s[0], Escape(s[1..]));
    }
  }

  // ─── When reading undoes escaping ───

  ghost predicate Occurs(s: string, pat: string) {
    exists j: nat :: At(s, pat, j)
  }

  lemma OccursLater(s: string, pat: string)
    requires pat != ""
    ensures Occurs(s, pat) <==> (At(s, pat, 0) || (s != "" && Occurs(s[1..], pat)))
  {
    hide At;
    if s == "" {
      assert !Occurs(s, pat) by {
        TooShort(s, pat);
      }
    } else {
      var a := [s[0]];
      assert s == a + s[1..];
      if Occurs(s, pat) {
        var j: nat :| At(s, pat, j);
        if j > 0 {
          AtShift(a, s[1..], pat, j - 1);
        }
      }
      if Occurs(s[1..], pat) {
        var j: nat :| At(s[1..], pat, j);
        AtShift(a, s[1..], pat, j);
      }
    }
  }

  /** Replacing changes nothing when there is nothing to replace, and shortens the text otherwise. */
  lemma {:induction false} ReplaceShortens(s: string, pat: string, with: string)
    requires |with| < |pat|
    ensures !Occurs(s, pat) ==> Replace(s, pat, with) == s
    ensures Occurs(s, pat) ==> |Replace(s, pat, with)| < |s|
    decreases |s|
  {
    OccursLater(s, pat);
    if |s| < |pat| {
      TooShort(s, pat);
    } else if s[..|pat|] == pat {
      assert At(s, pat, 0) by {
        assert s[0..|pat|] == s[..|pat|];
      }
      ReplaceShortens(s[|pat|..], pat, with);
    } else {
      assert s[0..|pat|] == s[..|pat|];
      ReplaceShortens(s[1..], pat, with);
    }
  }

  lemma TooShort(s: string, pat: string)
    requires |s| < |pat|
    ensures !Occurs(s, pat)
  {
  }

  /** The pairs of marks that read as one typographic mark. */
  ghost predicate HasLigature(s: string) {
    Occurs(s, "--") || Occurs(s, "``") || Occurs(s, "''")
  }

  lemma ThreeAreTwo(s: string)
    ensures Occurs(s, "---") ==> Occurs(s, "--")
  {
    if j: nat :| At(s, "---", j) {
      assert s[j..j + 2] == s[j..j + 3][..2] == "--";
      assert At(s, "--", j);
    }
  }

  lemma LigaturesShorten(s: string)
    ensures !HasLigature(s) ==> Ligatures(s) == s
    ensures |Ligatures(s)| <= |s| && (HasLigature(s) ==> |Ligatures(s)| < |s|)
  {
    hide Replace, Occurs;
    ThreeAreTwo(s);
    ReplaceShortens(s, "---", "\U{2014}");
    var a := Replace(s, "---", "\U{2014}");
    ReplaceShortens(a, "--", "\U{2013}");
    var b := Replace(a, "--", "\U{2013}");
    ReplaceShortens(b, "``", "\U{201C}");
    var c := Replace(b, "``", "\U{201C}");
    ReplaceShortens(c, "''", "\U{201D}");
  }

  lemma {:induction false} KeptWhole(s: string)
    ensures (forall i :: 0 <= i < |s| ==> !IsLost(s[i])) ==> Kept(s) == s
    ensures (exists i :: 0 <= i < |s| && IsLost(s[i])) ==> |Kept(s)| < |s|
  {
    hide IsLost;
    if s == "" {
    } else {
      KeptWhole(s[1..]);
      if i :| 0 <= i < |s| && IsLost(s[i]) {
        assert i > 0 ==> s[1..][i - 1] == s[i];
      }
    }
  }

  /** For every text, reading its escaped form gives the text without carets and tildes, its ligatures applied. */
  lemma EscapeReads(s: string)
    ensures ToMarkdown(Escape(s)) == Some(Ligatures(Kept(s)))
  {
    hide Read, Escape;
    ReadsEscaped(s);
  }

  lemma OneReplaced(pat: string, with: string)
    requires pat != ""
    ensures Replace(pat, pat, with) == with
    ensures forall s: string :: |s| < |pat| ==> Replace(s, pat, with) == s
  {
    assert pat[|pat|..] == "" && pat[..|pat|] == pat && with + "" == with;
  }

  lemma NotHere(s: string, pat: string, with: string)
    requires |s| == |pat| > 0 && s != pat
    ensures Replace(s, pat, with) == s
  {
    assert s[..|pat|] == s && s == [s[0]] + s[1..];
  }

  /** The ligatures: three hyphens, two, an opening and a closing quote. */
  lemma LigaturesAre()
    ensures Ligatures("---") == "\U{2014}" && Ligatures("--") == "\U{2013}"
    ensures Ligatures("``") == "\U{201C}" && Ligatures("''") == "\U{201D}"
  {
    hide Replace;
    OneReplaced("---", "\U{2014}");
    OneReplaced("--", "\U{2013}");
    OneReplaced("``", "\U{201C}");
    OneReplaced("''", "\U{201D}");
    NotHere("``", "--", "\U{2013}");
    NotHere("''", "--", "\U{2013}");
    NotHere("''", "``", "\U{201C}");
  }

  /** What is lost, at the shortest texts that lose something. */
  lemma EscapeLoses()
    ensures ToMarkdown(Escape("^")) == Some("") && ToMarkdown(Escape("~")) == Some("")
    ensures ToMarkdown(Escape("--")) == Some("\U{2013}")
  {
    hide Read, Escape, Ligatures, Kept;
    EscapeReads("^");
    EscapeReads("~");
    EscapeReads("--");
    KeptFew();
    EmptyLigatures();
    LigaturesAre();
  }

  lemma KeptFew()
    ensures Kept("^") == "" && Kept("~") == "" && Kept("--") == "--"
  {
    assert "^"[1..] == "" && "~"[1..] == "" && "--"[1..] == "-" && "-"[1..] == "";
    assert Kept("-") == "-" + "";
  }

  /** Reading undoes escaping exactly for the texts with no caret, no tilde and no ligature pair. */
  lemma EscapeUndone(s: string)
    ensures ToMarkdown(Escape(s)) == Some(s) <==>
            (forall i :: 0 <= i < |s| ==> !IsLost(s[i])) && !HasLigature(s)
  {
    hide Ligatures, Kept, ToMarkdown, Escape, HasLigature, IsLost;
    EscapeReads(s);
    KeptWhole(s);
    LigaturesShorten(Kept(s));
  }
}
