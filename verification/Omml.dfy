/** Office math markup: matching closing tags and collecting elements through nesting. */
module Omml {
  import opened Results
  import opened Search

  /** The character just past a tag's name ends the name. */
  predicate EndsName(c: char) {
    c == ' ' || c == '>' || c == '/' || c == '\t' || c == '\n' || c == '\r'
  }

  predicate NameBoundary(xml: string, k: nat) {
    k < |xml| && EndsName(xml[k])
  }

  predicate ClosesItself(xml: string, gt: nat) {
    0 < gt <= |xml| && xml[gt - 1] == '/'
  }

  function OpenOf(tag: string): string {
    "<" + tag
  }

  function CloseOf(tag: string): string {
    "</" + tag + ">"
  }

  /** The matching close from `i` on, `depth` opens being unmatched. */
  function MatchFrom(xml: string, tag: string, i: nat, depth: nat): (r: Option<nat>)
    requires depth >= 1
    ensures r.Some? ==> i <= r.value && r.value + |CloseOf(tag)| <= |xml|
    decreases |xml| + 1 - i
  {
    var no, nc := FindFrom(xml, OpenOf(tag), i), FindFrom(xml, CloseOf(tag), i);
    if no.Some? && (nc.None? || no.value < nc.value) then
      var o := no.value;
      if NameBoundary(xml, o + |OpenOf(tag)|) then
        var gt := FindFrom(xml, ">", o);
        if gt.None? then None
        else MatchFrom(xml, tag, gt.value + 1, if ClosesItself(xml, gt.value) then depth else depth + 1)
      else MatchFrom(xml, tag, o + |OpenOf(tag)|, depth)
    else if nc.Some? then
      if depth == 1 then nc else MatchFrom(xml, tag, nc.value + |CloseOf(tag)|, depth - 1)
    else None
  }

  /** The bodies of all top-level elements named `tag` from `pos` on. */
  function ChildrenFrom(xml: string, tag: string, pos: nat): seq<string>
    decreases |xml| + 1 - pos
  {
    var p := FindFrom(xml, OpenOf(tag), pos);
    if p.None? then []
    else if !NameBoundary(xml, p.value + |OpenOf(tag)|) then ChildrenFrom(xml, tag, p.value + |OpenOf(tag)|)
    else
      var gt := FindFrom(xml, ">", p.value);
      if gt.None? then []
      else if ClosesItself(xml, gt.value) then ChildrenFrom(xml, tag, gt.value + 1)
      else
        var end := MatchFrom(xml, tag, gt.value + 1, 1);
        if end.None? then []
        else [xml[gt.value + 1..end.value]] + ChildrenFrom(xml, tag, end.value + |CloseOf(tag)|)
  }

  /** The body of the first element named `tag` from `pos` on; empty when it closes itself or there is none. */
  function ChildFrom(xml: string, tag: string, pos: nat): string
    decreases |xml| + 1 - pos
  {
    var p := FindFrom(xml, OpenOf(tag), pos);
    if p.None? then ""
    else
      var next := p.value + |OpenOf(tag)|;
      if !NameBoundary(xml, next) then ChildFrom(xml, tag, next)
      else
        var gt := FindFrom(xml, ">", p.value);
        if gt.None? then ChildFrom(xml, tag, next)
        else if ClosesItself(xml, gt.value) then ""
        else
          var end := MatchFrom(xml, tag, gt.value + 1, 1);
          if end.None? then ChildFrom(xml, tag, next)
          else xml[gt.value + 1..end.value]
  }

  // ─── The loops ───

  method MatchingClose(xml: string, tag: string, from: nat) returns (r: Option<nat>)
    ensures r == MatchFrom(xml, tag, from, 1)
  {
    hide NameBoundary, ClosesItself, At, FindFrom;
    var open, close := OpenOf(tag), CloseOf(tag);
    var depth, i := 1, from;
    while true
      invariant depth >= 1 && MatchFrom(xml, tag, from, 1) == MatchFrom(xml, tag, i, depth)
      decreases |xml| + 1 - i
    {
      var no, nc := FindFrom(xml, open, i), FindFrom(xml, close, i);
      if no.Some? && (nc.None? || no.value < nc.value) {
        var o := no.value;
        if NameBoundary(xml, o + |open|) {
          var gt := FindFrom(xml, ">", o);
          if gt.None? {
            return None;
          }
          if !ClosesItself(xml, gt.value) {
            depth := depth + 1;
          }
          i := gt.value + 1;
        } else {
          i := o + |open|;
        }
      } else if nc.Some? {
        depth := depth - 1;
        if depth == 0 {
          return nc;
        }
        i := nc.value + |close|;
      } else {
        return None;
      }
    }
  }

  method ChildrenAll(xml: string, tag: string) returns (results: seq<string>)
    ensures results == ChildrenFrom(xml, tag, 0)
  {
    hide NameBoundary, ClosesItself, At, FindFrom, MatchFrom;
    results := [];
    var open, close := OpenOf(tag), CloseOf(tag);
    var pos := 0;
    ghost var goal := ChildrenFrom(xml, tag, 0);
    while true
      invariant goal == results + ChildrenFrom(xml, tag, pos)
      decreases |xml| + 1 - pos
    {
      var p := FindFrom(xml, open, pos);
      if p.None? {
        break;
      }
      if !NameBoundary(xml, p.value + |open|) {
        pos := p.value + |open|;
        continue;
      }
      var gt := FindFrom(xml, ">", p.value);
      if gt.None? {
        break;
      }
      if ClosesItself(xml, gt.value) {
        pos := gt.value + 1;
        continue;
      }
      var bodyStart := gt.value + 1;
      var end := MatchingClose(xml, tag, bodyStart);
      if end.None? {
        break;
      }
      var body := xml[bodyStart..end.value];
      ghost var rest := ChildrenFrom(xml, tag, end.value + |close|);
      assert results + ([body] + rest) == (results + [body]) + rest;
      results := results + [body];
      pos := end.value + |close|;
    }
    assert results + [] == results;
  }

  method Child(xml: string, tag: string) returns (r: string)
    ensures r == ChildFrom(xml, tag, 0)
  {
    hide NameBoundary, ClosesItself, At, FindFrom, MatchFrom;
    var open := OpenOf(tag);
    var i := 0;
    while true
      invariant ChildFrom(xml, tag, 0) == ChildFrom(xml, tag, i)
      decreases |xml| + 1 - i
    {
      var p := FindFrom(xml, open, i);
      if p.None? {
        return "";
      }
      if NameBoundary(xml, p.value + |open|) {
        var gt := FindFrom(xml, ">", p.value);
        if gt.Some? {
          if ClosesItself(xml, gt.value) {
            return "";
          }
          var end := MatchingClose(xml, tag, gt.value + 1);
          if end.Some? {
            return xml[gt.value + 1..end.value];
          }
        }
      }
      i := p.value + |open|;
    }
  }

  // ─── Well-formed markup ───

  /** Markup as a forest: text, elements that close themselves, and elements around more markup. */
  datatype Forest = End
                  | Text(text: string, rest: Forest)
                  | Empty(name: string, attrs: string, rest: Forest)
                  | Element(name: string, attrs: string, kids: Forest, rest: Forest)

  predicate IsName(s: string) {
    s != "" && forall i :: 0 <= i < |s| ==> s[i] !in {'<', '>', '/', ' ', '\t', '\n', '\r'}
  }

  predicate NoAngles(s: string) {
    '<' !in s && '>' !in s
  }

  /** What follows a name inside its tag: nothing, or a blank and attributes that do not end in a slash. */
  predicate IsAttrs(s: string) {
    NoAngles(s) && (s != "" ==> s[0] in {' ', '\t', '\n', '\r'} && s[|s| - 1] != '/')
  }

  predicate WellFormed(f: Forest) {
    match f
    case End => true
    case Text(text, rest) => NoAngles(text) && WellFormed(rest)
    case Empty(name, attrs, rest) => IsName(name) && IsAttrs(attrs) && WellFormed(rest)
    case Element(name, attrs, kids, rest) => IsName(name) && IsAttrs(attrs) && WellFormed(kids) && WellFormed(rest)
  }

  function StartTag(name: string, attrs: string, slash: bool): string {
    "<" + name + attrs + (if slash then "/" else "") + ">"
  }

  function Write(f: Forest): string {
    match f
    case End => ""
    case Text(text, rest) => text + Write(rest)
    case Empty(name, attrs, rest) => StartTag(name, attrs, true) + Write(rest)
    case Element(name, attrs, kids, rest) =>
      StartTag(name, attrs, false) + (Write(kids) + (CloseOf(name) + Write(rest)))
  }

  /** The bodies of the outermost elements of that name, in document order. */
  function Outermost(f: Forest, tag: string): seq<string> {
    match f
    case End => []
    case Text(_, rest) => Outermost(rest, tag)
    case Empty(_, _, rest) => Outermost(rest, tag)
    case Element(name, _, kids, rest) =>
      (if name == tag then [Write(kids)] else Outermost(kids, tag)) + Outermost(rest, tag)
  }

  /** The body of the first element of that name in document order, empty if it closes itself. */
  function First(f: Forest, tag: string): Option<string> {
    match f
    case End => None
    case Text(_, rest) => First(rest, tag)
    case Empty(name, _, rest) => if name == tag then Some("") else First(rest, tag)
    case Element(name, _, kids, rest) =>
      if name == tag then Some(Write(kids))
      else if First(kids, tag).Some? then First(kids, tag) else First(rest, tag)
  }

  // ─── One tag at a time ───

  /** No angle bracket, no tag: nothing starts there. */
  lemma Quiet(xml: string, pat: string, from: nat, to: nat)
    requires pat != "" && pat[0] == '<' && from <= to <= |xml|
    requires forall j :: from <= j < to ==> xml[j] != '<'
    ensures forall j: nat :: from <= j < to ==> !At(xml, pat, j)
    ensures FindFrom(xml, pat, from) == FindFrom(xml, pat, to)
  {
    hide FindFrom, At;
    forall j: nat | from <= j < to
      ensures !At(xml, pat, j)
    {
      AtChar(xml, pat, j, 0);
    }
    FindSkip(xml, pat, from, to);
  }

  /** Searches that find the same things go the same way. */
  lemma SameFinds(xml: string, tag: string, from: nat, to: nat, depth: nat)
    requires depth >= 1 && from <= to
    requires FindFrom(xml, OpenOf(tag), from) == FindFrom(xml, OpenOf(tag), to)
    requires FindFrom(xml, CloseOf(tag), from) == FindFrom(xml, CloseOf(tag), to)
    ensures MatchFrom(xml, tag, from, depth) == MatchFrom(xml, tag, to, depth)
  {
    hide FindFrom, At, NameBoundary, ClosesItself;
  }

  lemma SameOpens(xml: string, tag: string, from: nat, to: nat)
    requires from <= to && FindFrom(xml, OpenOf(tag), from) == FindFrom(xml, OpenOf(tag), to)
    ensures ChildrenFrom(xml, tag, from) == ChildrenFrom(xml, tag, to)
    ensures ChildFrom(xml, tag, from) == ChildFrom(xml, tag, to)
  {
    hide FindFrom, At, NameBoundary, ClosesItself, MatchFrom;
  }

  lemma QuietMatch(xml: string, tag: string, from: nat, to: nat, depth: nat)
    requires depth >= 1 && from <= to <= |xml| && forall j :: from <= j < to ==> xml[j] != '<'
    ensures MatchFrom(xml, tag, from, depth) == MatchFrom(xml, tag, to, depth)
    ensures ChildrenFrom(xml, tag, from) == ChildrenFrom(xml, tag, to)
    ensures ChildFrom(xml, tag, from) == ChildFrom(xml, tag, to)
  {
    hide FindFrom, At, MatchFrom, ChildrenFrom, ChildFrom;
    Quiet(xml, OpenOf(tag), from, to);
    Quiet(xml, CloseOf(tag), from, to);
    SameFinds(xml, tag, from, to, depth);
    SameOpens(xml, tag, from, to);
  }

  /** An opening tag as it stands in a text. */
  lemma StartTagChars(name: string, attrs: string, slash: bool, k: nat)
    requires IsName(name) && IsAttrs(attrs)
    ensures var t := StartTag(name, attrs, slash);
            |t| == |name| + |attrs| + (if slash then 3 else 2) && t[0] == '<' && t[1] == name[0] && t[1] != '/' &&
            t[|t| - 1] == '>' && (t[|t| - 2] == '/' <==> slash) && EndsName(t[1 + |name|]) &&
            (0 < k < |t| ==> t[k] != '<') && (k < |t| - 1 ==> t[k] != '>') &&
            (1 <= k <= |name| ==> t[k] == name[k - 1])
  {
    var t := StartTag(name, attrs, slash);
    if 1 <= k <= |name| {
      assert t[k] == name[k - 1];
    } else if |name| < k <= |name| + |attrs| {
      assert t[k] == attrs[k - 1 - |name|];
    }
    assert t[|t| - 2] == if slash then '/' else if attrs != "" then attrs[|attrs| - 1] else name[|name| - 1];
    assert t[1 + |name|] == if attrs != "" then attrs[0] else if slash then '/' else '>';
  }

  lemma NameGoesOn(name: string, i: nat)
    requires IsName(name) && i < |name|
    ensures !EndsName(name[i])
  {
  }

  /** Where a tag named `name` opens, `tag` is found exactly when the name begins with it. */
  lemma OpensAt(before: string, name: string, attrs: string, slash: bool, after: string, tag: string)
    requires IsName(name) && IsAttrs(attrs) && IsName(tag)
    ensures var xml := before + StartTag(name, attrs, slash) + after;
            (At(xml, OpenOf(tag), |before|) <==> |tag| <= |name| && name[..|tag|] == tag) &&
            !At(xml, CloseOf(tag), |before|) &&
            (At(xml, OpenOf(tag), |before|) ==>
               (NameBoundary(xml, |before| + |OpenOf(tag)|) <==> name == tag))
  {
    hide StartTag, IsAttrs, EndsName;
    var t := StartTag(name, attrs, slash);
    var xml := before + t + after;
    StartTagChars(name, attrs, slash, 0);
    AtChar(xml, CloseOf(tag), |before|, 1);
    assert xml[|before| + 1] == t[1];
    forall j | |before| < j <= |before| + |name|
      ensures xml[j] == name[j - |before| - 1]
    {
      StartTagChars(name, attrs, slash, j - |before|);
      assert xml[j] == t[j - |before|];
    }
    assert xml[|before|] == '<' && xml[|before| + 1 + |name|] == t[1 + |name|];
    if |tag| <= |name| {
      NameAt(xml, name, tag, |before|);
      if |tag| < |name| {
        NameGoesOn(name, |tag|);
        assert xml[|before| + 1 + |tag|] == name[|tag|];
      }
      assert |tag| == |name| ==> xml[|before| + 1 + |tag|] == t[1 + |name|];
    } else {
      AtChar(xml, OpenOf(tag), |before|, |name| + 1);
      assert OpenOf(tag)[|name| + 1] == tag[|name|];
    }
  }

  lemma NameAt(xml: string, name: string, tag: string, p: nat)
    requires p + 1 + |name| < |xml| && |tag| <= |name| && xml[p] == '<'
    requires forall j :: p < j <= p + |name| ==> xml[j] == name[j - p - 1]
    ensures At(xml, OpenOf(tag), p) <==> name[..|tag|] == tag
    ensures name[..|tag|] == tag && |tag| == |name| ==> name == tag
  {
    var piece := xml[p..p + 1 + |tag|];
    assert piece == "<" + name[..|tag|] by {
      assert forall k :: 1 <= k <= |tag| ==> piece[k] == xml[p + k];
    }
    assert piece == OpenOf(tag) <==> name[..|tag|] == tag by {
      assert piece[1..] == name[..|tag|] && OpenOf(tag)[1..] == tag;
    }
  }

  /** The closing bracket of an opening tag. */
  lemma TagCloses(before: string, name: string, attrs: string, slash: bool, after: string)
    requires IsName(name) && IsAttrs(attrs)
    ensures var t := StartTag(name, attrs, slash);
            var xml := before + t + after;
            FindFrom(xml, ">", |before|) == Some(|before| + |t| - 1) &&
            (ClosesItself(xml, |before| + |t| - 1) <==> slash)
    ensures var xml := before + StartTag(name, attrs, slash) + after;
            forall j :: |before| < j < |before + StartTag(name, attrs, slash)| ==> xml[j] != '<'
  {
    hide StartTag, IsAttrs, EndsName, IsName, FindFrom, At;
    var t := StartTag(name, attrs, slash);
    var xml := before + t + after;
    StartTagChars(name, attrs, slash, 0);
    forall j: nat | |before| <= j < |before| + |t| - 1
      ensures !At(xml, ">", j)
    {
      StartTagChars(name, attrs, slash, j - |before|);
      AtChar(xml, ">", j, 0);
      assert xml[j] == t[j - |before|];
    }
    forall j | |before| < j < |before + t|
      ensures xml[j] != '<'
    {
      StartTagChars(name, attrs, slash, j - |before|);
      assert xml[j] == t[j - |before|];
    }
    var last := |before| + |t| - 1;
    assert xml[last] == t[|t| - 1] && xml[last - 1] == t[|t| - 2];
    OneChar(xml, '>', last);
    FoundAt(xml, ">", |before|, last);
  }

  /** What the three searches do at an opening tag. */
  lemma AtStartTag(before: string, name: string, attrs: string, slash: bool, after: string, tag: string, depth: nat)
    requires IsName(name) && IsAttrs(attrs) && IsName(tag) && depth >= 1
    ensures var xml := before + StartTag(name, attrs, slash) + after;
            var end := |before + StartTag(name, attrs, slash)|;
            MatchFrom(xml, tag, |before|, depth) ==
              MatchFrom(xml, tag, end, if name == tag && !slash then depth + 1 else depth) &&
            (name != tag || slash ==> ChildrenFrom(xml, tag, |before|) == ChildrenFrom(xml, tag, end)) &&
            (name != tag ==> ChildFrom(xml, tag, |before|) == ChildFrom(xml, tag, end))
  {
    hide StartTag, IsAttrs, EndsName, IsName, FindFrom, At, NameBoundary, ClosesItself;
    var xml := before + StartTag(name, attrs, slash) + after;
    var p, end := |before|, |before + StartTag(name, attrs, slash)|;
    StartTagChars(name, attrs, slash, 0);
    OpensAt(before, name, attrs, slash, after, tag);
    TagCloses(before, name, attrs, slash, after);
    if At(xml, OpenOf(tag), p) {
      FoundAt(xml, OpenOf(tag), p, p);
      if name != tag {
        QuietMatch(xml, tag, p + |OpenOf(tag)|, end, depth);
      }
    } else {
      QuietMatch(xml, tag, p + 1, end, depth);
      OneMore(xml, tag, p, depth);
    }
  }

  /** Where neither pattern stands, the searches may start one later. */
  lemma OneMore(xml: string, tag: string, p: nat, depth: nat)
    requires depth >= 1 && !At(xml, OpenOf(tag), p) && !At(xml, CloseOf(tag), p)
    ensures MatchFrom(xml, tag, p, depth) == MatchFrom(xml, tag, p + 1, depth)
    ensures ChildrenFrom(xml, tag, p) == ChildrenFrom(xml, tag, p + 1)
    ensures ChildFrom(xml, tag, p) == ChildFrom(xml, tag, p + 1)
  {
    hide FindFrom, At, MatchFrom, ChildrenFrom, ChildFrom;
    FindSkip(xml, OpenOf(tag), p, p + 1);
    FindSkip(xml, CloseOf(tag), p, p + 1);
    SameFinds(xml, tag, p, p + 1, depth);
    SameOpens(xml, tag, p, p + 1);
  }

  lemma CloseTagChars(name: string, tag: string, k: nat)
    requires IsName(name) && IsName(tag)
    ensures var t := CloseOf(name);
            |t| == |name| + 3 && t[0] == '<' && t[1] == '/' && (0 < k < |t| ==> t[k] != '<') &&
            t[|t| - 1] == '>' && (2 <= k < |t| - 1 ==> t[k] == name[k - 2] != '>')
  {
    var t := CloseOf(name);
    if 2 <= k < |t| - 1 {
      assert t[k] == name[k - 2];
    }
  }

  /** A closing tag is found exactly where it has the name sought. */
  lemma ClosesAt(before: string, name: string, after: string, tag: string)
    requires IsName(name) && IsName(tag)
    ensures var xml := before + CloseOf(name) + after;
            (At(xml, CloseOf(tag), |before|) <==> name == tag) && !At(xml, OpenOf(tag), |before|) &&
            forall j :: |before| < j < |before + CloseOf(name)| ==> xml[j] != '<'
  {
    var t := CloseOf(name);
    var xml := before + t + after;
    CloseTagChars(name, tag, 0);
    forall j | |before| < j < |before + t|
      ensures xml[j] != '<'
    {
      CloseTagChars(name, tag, j - |before|);
      assert xml[j] == t[j - |before|];
    }
    AtChar(xml, OpenOf(tag), |before|, 1);
    assert xml[|before| + 1] == t[1] == '/';
    if name == tag {
      assert xml[|before|..|before| + |t|] == t;
    } else if At(xml, CloseOf(tag), |before|) {
      SameClose(before, name, after, tag);
    }
  }

  lemma SameClose(before: string, name: string, after: string, tag: string)
    requires IsName(name) && IsName(tag) && At(before + CloseOf(name) + after, CloseOf(tag), |before|)
    ensures name == tag
  {
    hide EndsName;
    var s, t := CloseOf(name), CloseOf(tag);
    var xml := before + s + after;
    var common := if |name| < |tag| then |name| else |tag|;
    forall k: nat | k < |t|
      ensures xml[|before| + k] == t[k]
    {
      AtChar(xml, t, |before|, k);
    }
    assert xml[|before| + 2 + common] == t[2 + common];
    assert xml[|before| + 2 + common] == s[2 + common];
    assert |name| == |tag| by {
      CloseTagChars(name, tag, 2 + common);
      CloseTagChars(tag, name, 2 + common);
    }
    forall i | 0 <= i < |name|
      ensures name[i] == tag[i]
    {
      assert xml[|before| + 2 + i] == t[2 + i] == tag[i];
      assert xml[|before| + 2 + i] == s[2 + i] == name[i];
    }
  }

  /** What the searches do at a closing tag. */
  lemma AtCloseTag(before: string, name: string, after: string, tag: string, depth: nat)
    requires IsName(name) && IsName(tag) && depth >= 1
    ensures var xml := before + CloseOf(name) + after;
            var end := |before + CloseOf(name)|;
            (name == tag && depth == 1 ==> MatchFrom(xml, tag, |before|, depth) == Some(|before|)) &&
            (name == tag && depth > 1 ==>
               MatchFrom(xml, tag, |before|, depth) == MatchFrom(xml, tag, end, depth - 1)) &&
            (name != tag ==> MatchFrom(xml, tag, |before|, depth) == MatchFrom(xml, tag, end, depth)) &&
            (name != tag ==> ChildrenFrom(xml, tag, |before|) == ChildrenFrom(xml, tag, end)) &&
            (name != tag ==> ChildFrom(xml, tag, |before|) == ChildFrom(xml, tag, end))
  {
    hide IsName, FindFrom, At, NameBoundary, ClosesItself;
    var xml := before + CloseOf(name) + after;
    var p, end := |before|, |before + CloseOf(name)|;
    ClosesAt(before, name, after, tag);
    if name == tag {
      FoundAt(xml, CloseOf(tag), p, p);
    } else {
      QuietMatch(xml, tag, p + 1, end, depth);
      OneMore(xml, tag, p, depth);
    }
  }

  // ─── Whole forests ───

  /** The four ways to see the same text while walking through an element. */
  lemma Views(before: string, t: string, kids: string, c: string, rest: string, after: string)
    ensures var xml := before + (t + (kids + (c + rest))) + after;
            xml == before + t + (kids + (c + rest) + after) &&
            xml == (before + t) + kids + (c + rest + after) &&
            xml == (before + t + kids) + c + (rest + after) &&
            xml == (before + t + kids + c) + rest + after
  {
  }

  lemma Halves(before: string, a: string, b: string, after: string)
    ensures before + (a + b) + after == before + a + (b + after)
    ensures before + (a + b) + after == (before + a) + b + after
  {
  }

  /** Through well-formed markup, whatever is nested in it, the count of open tags comes back to what it was. */
  lemma {:induction false} DepthKept(before: string, f: Forest, after: string, tag: string, depth: nat)
    requires WellFormed(f) && IsName(tag) && depth >= 1
    ensures var xml := before + Write(f) + after;
            MatchFrom(xml, tag, |before|, depth) == MatchFrom(xml, tag, |before + Write(f)|, depth)
    decreases f
  {
    hide MatchFrom, StartTag, CloseOf, IsName, IsAttrs, ChildrenFrom, ChildFrom;
    match f
    case End =>
      assert before + "" == before;
    case Text(text, rest) =>
      Halves(before, text, Write(rest), after);
      var xml := before + text + (Write(rest) + after);
      forall j | |before| <= j < |before + text|
        ensures xml[j] != '<'
      {
        assert xml[j] == text[j - |before|];
      }
      QuietMatch(xml, tag, |before|, |before + text|, depth);
      DepthKept(before + text, rest, after, tag, depth);
      assert before + Write(f) == before + text + Write(rest);
    case Empty(name, attrs, rest) =>
      var t := StartTag(name, attrs, true);
      Halves(before, t, Write(rest), after);
      AtStartTag(before, name, attrs, true, Write(rest) + after, tag, depth);
      DepthKept(before + t, rest, after, tag, depth);
      assert before + Write(f) == before + t + Write(rest);
    case Element(name, attrs, kids, rest) =>
      var t, c, inner := StartTag(name, attrs, false), CloseOf(name), if name == tag then depth + 1 else depth;
      Views(before, t, Write(kids), c, Write(rest), after);
      AtStartTag(before, name, attrs, false, Write(kids) + (c + Write(rest)) + after, tag, depth);
      DepthKept(before + t, kids, c + Write(rest) + after, tag, inner);
      AtCloseTag(before + t + Write(kids), name, Write(rest) + after, tag, inner);
      DepthKept(before + t + Write(kids) + c, rest, after, tag, depth);
      assert before + Write(f) == before + t + Write(kids) + c + Write(rest);
  }

  /** The close found is the close of the element just opened. */
  lemma MatchesOwnClose(before: string, kids: Forest, tag: string, after: string)
    requires WellFormed(kids) && IsName(tag)
    ensures MatchFrom(before + Write(kids) + (CloseOf(tag) + after), tag, |before|, 1) == Some(|before + Write(kids)|)
  {
    hide MatchFrom, CloseOf, IsName, Write;
    DepthKept(before, kids, CloseOf(tag) + after, tag, 1);
    assert before + Write(kids) + (CloseOf(tag) + after) == (before + Write(kids)) + CloseOf(tag) + after;
    AtCloseTag(before + Write(kids), tag, after, tag, 1);
  }

  /** At an element of the name sought, its body is taken whole and the search goes on behind it. */
  lemma TakesElement(before: string, tag: string, attrs: string, kids: Forest, rest: string)
    requires WellFormed(kids) && IsName(tag) && IsAttrs(attrs)
    ensures var t := StartTag(tag, attrs, false);
            var xml := before + t + (Write(kids) + (CloseOf(tag) + rest));
            ChildrenFrom(xml, tag, |before|) ==
              [Write(kids)] + ChildrenFrom(xml, tag, |before + t + Write(kids) + CloseOf(tag)|) &&
            ChildFrom(xml, tag, |before|) == Write(kids)
  {
    hide MatchFrom, StartTag, CloseOf, IsName, IsAttrs, Write, FindFrom, At, NameBoundary, ClosesItself;
    var t := StartTag(tag, attrs, false);
    var xml := before + t + (Write(kids) + (CloseOf(tag) + rest));
    OpensAt(before, tag, attrs, false, Write(kids) + (CloseOf(tag) + rest), tag);
    TagCloses(before, tag, attrs, false, Write(kids) + (CloseOf(tag) + rest));
    FoundAt(xml, OpenOf(tag), |before|, |before|);
    assert xml == (before + t) + Write(kids) + (CloseOf(tag) + rest);
    MatchesOwnClose(before + t, kids, tag, rest);
    assert xml[|before + t|..|before + t + Write(kids)|] == Write(kids);
  }

  /** Through well-formed markup, the search collects exactly the outermost elements of the name, in order. */
  lemma {:induction false} Collects(before: string, f: Forest, after: string, tag: string)
    requires WellFormed(f) && IsName(tag)
    ensures var xml := before + Write(f) + after;
            ChildrenFrom(xml, tag, |before|) == Outermost(f, tag) + ChildrenFrom(xml, tag, |before + Write(f)|)
    decreases f
  {
    hide MatchFrom, StartTag, CloseOf, IsName, IsAttrs, ChildrenFrom, ChildFrom;
    match f
    case End =>
      assert before + "" == before;
    case Text(text, rest) =>
      Halves(before, text, Write(rest), after);
      var xml := before + text + (Write(rest) + after);
      forall j | |before| <= j < |before + text|
        ensures xml[j] != '<'
      {
        assert xml[j] == text[j - |before|];
      }
      QuietMatch(xml, tag, |before|, |before + text|, 1);
      Collects(before + text, rest, after, tag);
      assert before + Write(f) == before + text + Write(rest);
    case Empty(name, attrs, rest) =>
      var t := StartTag(name, attrs, true);
      Halves(before, t, Write(rest), after);
      AtStartTag(before, name, attrs, true, Write(rest) + after, tag, 1);
      Collects(before + t, rest, after, tag);
      assert before + Write(f) == before + t + Write(rest);
    case Element(name, attrs, kids, rest) =>
      var t, c := StartTag(name, attrs, false), CloseOf(name);
      Views(before, t, Write(kids), c, Write(rest), after);
      Collects(before + t + Write(kids) + c, rest, after, tag);
      assert before + Write(f) == before + t + Write(kids) + c + Write(rest);
      CollectsOwn(before, f, after, tag);
      Together(if name == tag then [Write(kids)] else Outermost(kids, tag), Outermost(rest, tag),
               ChildrenFrom(before + Write(f) + after, tag, |before + Write(f)|));
  }

  /** What one element adds: its body if it has the name, else what its children add. */
  lemma CollectsOwn(before: string, f: Forest, after: string, tag: string)
    requires f.Element? && WellFormed(f) && IsName(tag)
    ensures var xml := before + Write(f) + after;
            var end := |before + StartTag(f.name, f.attrs, false) + Write(f.kids) + CloseOf(f.name)|;
            ChildrenFrom(xml, tag, |before|) ==
              (if f.name == tag then [Write(f.kids)] else Outermost(f.kids, tag)) + ChildrenFrom(xml, tag, end)
    decreases f, 0
  {
    hide MatchFrom, StartTag, CloseOf, IsName, IsAttrs, ChildrenFrom, ChildFrom, Outermost;
    var t, c, kids, rest := StartTag(f.name, f.attrs, false), CloseOf(f.name), Write(f.kids), Write(f.rest);
    Views(before, t, kids, c, rest, after);
    if f.name == tag {
      assert kids + (c + rest) + after == kids + (c + (rest + after));
      TakesElement(before, tag, f.attrs, f.kids, rest + after);
    } else {
      AtStartTag(before, f.name, f.attrs, false, kids + (c + rest) + after, tag, 1);
      Collects(before + t, f.kids, c + rest + after, tag);
      AtCloseTag(before + t + kids, f.name, rest + after, tag, 1);
    }
  }

  lemma Together(a: seq<string>, b: seq<string>, c: seq<string>)
    ensures a + (b + c) == (a + b) + c
  {
  }

  lemma NothingLeft(xml: string, tag: string)
    ensures ChildrenFrom(xml, tag, |xml|) == [] && ChildFrom(xml, tag, |xml|) == ""
  {
  }

  /** All children of well-formed markup: the outermost elements' bodies, and nothing else. */
  lemma ChildrenAreOutermost(f: Forest, tag: string)
    requires WellFormed(f) && IsName(tag)
    ensures ChildrenFrom(Write(f), tag, 0) == Outermost(f, tag)
  {
    hide ChildrenFrom, ChildFrom, IsName, WellFormed;
    Collects("", f, "", tag);
    assert "" + Write(f) + "" == Write(f) && "" + Write(f) == Write(f);
    NothingLeft(Write(f), tag);
  }

  /** Through well-formed markup, the first element of the name is the one taken. */
  lemma {:induction false} TakesFirst(before: string, f: Forest, after: string, tag: string)
    requires WellFormed(f) && IsName(tag)
    ensures var xml := before + Write(f) + after;
            ChildFrom(xml, tag, |before|) ==
              if First(f, tag).Some? then First(f, tag).value else ChildFrom(xml, tag, |before + Write(f)|)
    decreases f
  {
    hide MatchFrom, StartTag, CloseOf, IsName, IsAttrs, ChildrenFrom, ChildFrom;
    match f
    case End =>
      assert before + "" == before;
    case Text(text, rest) =>
      Halves(before, text, Write(rest), after);
      var xml := before + text + (Write(rest) + after);
      forall j | |before| <= j < |before + text|
        ensures xml[j] != '<'
      {
        assert xml[j] == text[j - |before|];
      }
      QuietMatch(xml, tag, |before|, |before + text|, 1);
      TakesFirst(before + text, rest, after, tag);
      assert before + Write(f) == before + text + Write(rest);
    case Empty(name, attrs, rest) =>
      var t := StartTag(name, attrs, true);
      Halves(before, t, Write(rest), after);
      assert before + Write(f) == before + t + Write(rest);
      if name == tag {
        TakesEmpty(before, tag, attrs, Write(rest) + after);
      } else {
        AtStartTag(before, name, attrs, true, Write(rest) + after, tag, 1);
        TakesFirst(before + t, rest, after, tag);
      }
    case Element(name, attrs, kids, rest) =>
      var t, c := StartTag(name, attrs, false), CloseOf(name);
      Views(before, t, Write(kids), c, Write(rest), after);
      assert before + Write(f) == before + t + Write(kids) + c + Write(rest);
      if name == tag {
        assert Write(kids) + (c + Write(rest)) + after == Write(kids) + (c + (Write(rest) + after));
        TakesElement(before, tag, attrs, kids, Write(rest) + after);
      } else {
        AtStartTag(before, name, attrs, false, Write(kids) + (c + Write(rest)) + after, tag, 1);
        TakesFirst(before + t, kids, c + Write(rest) + after, tag);
        AtCloseTag(before + t + Write(kids), name, Write(rest) + after, tag, 1);
        TakesFirst(before + t + Write(kids) + c, rest, after, tag);
      }
  }

  lemma TakesEmpty(before: string, tag: string, attrs: string, after: string)
    requires IsName(tag) && IsAttrs(attrs)
    ensures ChildFrom(before + StartTag(tag, attrs, true) + after, tag, |before|) == ""
  {
    hide MatchFrom, StartTag, IsName, IsAttrs, FindFrom, At, NameBoundary, ClosesItself;
    OpensAt(before, tag, attrs, true, after, tag);
    TagCloses(before, tag, attrs, true, after);
    FoundAt(before + StartTag(tag, attrs, true) + after, OpenOf(tag), |before|, |before|);
  }

  /** The child of well-formed markup: the first element of that name in document order. */
  lemma ChildIsFirst(f: Forest, tag: string)
    requires WellFormed(f) && IsName(tag)
    ensures ChildFrom(Write(f), tag, 0) == if First(f, tag).Some? then First(f, tag).value else ""
  {
    hide ChildrenFrom, ChildFrom, IsName, WellFormed;
    TakesFirst("", f, "", tag);
    assert "" + Write(f) + "" == Write(f) && "" + Write(f) == Write(f);
    NothingLeft(Write(f), tag);
  }
}
