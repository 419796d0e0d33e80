/** Office document metadata: the event walker that captures one element's text at a time. */
module OfficeMeta {
  import opened Results

  datatype Field = Title | Subject | Creator | Description | Keywords | LastModifiedBy | Category | Created | Modified
                 | Application | Company | WordCount | PageCount | CharacterCount

  datatype Slot = Standard(field: Field) | KeywordAppend | Custom(name: string)

  datatype CustomProperty = CustomProperty(name: string, value: string)

  /** The fields found so far. */
  datatype Metadata = Metadata(standard: map<Field, string>, custom: seq<CustomProperty>)

  /** Which field an element's local name fills; a property takes its declared name. */
  function SlotForStart(local: string, nameAttr: Option<string>): Option<Slot> {
    match local
    case "title" => Some(Standard(Title))
    case "subject" => Some(Standard(Subject))
    case "creator" => Some(Standard(Creator))
    case "description" => Some(Standard(Description))
    case "keywords" => Some(Standard(Keywords))
    case "keyword" => Some(KeywordAppend)
    case "lastModifiedBy" => Some(Standard(LastModifiedBy))
    case "category" => Some(Standard(Category))
    case "created" => Some(Standard(Created))
    case "creation-date" => Some(Standard(Created))
    case "modified" => Some(Standard(Modified))
    case "date" => Some(Standard(Modified))
    case "Application" => Some(Standard(Application))
    case "Company" => Some(Standard(Company))
    case "Words" => Some(Standard(WordCount))
    case "Pages" => Some(Standard(PageCount))
    case "Characters" => Some(Standard(CharacterCount))
    case "property" => Some(Custom(if nameAttr.Some? then nameAttr.value else ""))
    case "user-defined" => Some(Custom(if nameAttr.Some? then nameAttr.value else ""))
    case _ => None
  }

  predicate IsSpace(c: char) {
    '\U{0009}' <= c <= '\U{000D}' || c == ' ' || c == '\U{0085}' || c == '\U{00A0}' || c == '\U{1680}' ||
    '\U{2000}' <= c <= '\U{200A}' || c == '\U{2028}' || c == '\U{2029}' || c == '\U{202F}' || c == '\U{205F}' ||
    c == '\U{3000}'
  }

  function TrimStart(s: string): string {
    if s != "" && IsSpace(s[0]) then TrimStart(s[1..]) else s
  }

  function TrimEnd(s: string): string {
    if s != "" && IsSpace(s[|s| - 1]) then TrimEnd(s[..|s| - 1]) else s
  }

  function Trim(s: string): string {
    TrimEnd(TrimStart(s))
  }

  /** One field filled: a blank value leaves a standard field alone, a nameless property is dropped. */
  function Committed(m: Metadata, slot: Slot, raw: string): Metadata {
    var value := Trim(raw);
    match slot
    case Custom(name) =>
      if Trim(name) == "" then m else m.(custom := m.custom + [CustomProperty(Trim(name), value)])
    case KeywordAppend =>
      if value == "" then m
      else if Keywords in m.standard
      then m.(standard := m.standard[Keywords := m.standard[Keywords] + ", " + value])
      else m.(standard := m.standard[Keywords := value])
    case Standard(field) => if value == "" then m else m.(standard := m.standard[field := value])
  }

  // ─── Events ───

  /** What the reader hands over; text that cannot be unescaped carries nothing. */
  datatype Event = Start(local: string, nameAttr: Option<string>) | End | Text(content: Option<string>) | Other

  datatype Capture = Capture(slot: Slot, depth: int)

  datatype Commit = Commit(slot: Slot, raw: string)

  /** Where the walk stands: how deep, what it captures into since which depth, and what it has committed. */
  datatype State = State(depth: int, capture: Option<Capture>, accum: string, commits: seq<Commit>)

  function Step(s: State, e: Event): Option<State> {
    match e
    case Start(local, nameAttr) =>
      var slot := SlotForStart(local, nameAttr);
      Some(if slot.Some? then State(s.depth + 1, Some(Capture(slot.value, s.depth)), "", s.commits)
           else s.(depth := s.depth + 1))
    case End =>
      Some(if s.capture.Some? && s.depth - 1 == s.capture.value.depth
           then State(s.depth - 1, None, "", s.commits + [Commit(s.capture.value.slot, s.accum)])
           else s.(depth := s.depth - 1))
    case Text(content) =>
      if s.capture.None? then Some(s)
      else if content.None? then None
      else Some(s.(accum := s.accum + content.value))
    case Other => Some(s)
  }

  function Run(s: State, events: seq<Event>): Option<State>
    decreases |events|
  {
    if events == [] then Some(s)
    else
      var next := Step(s, events[0]);
      if next.None? then None else Run(next.value, events[1..])
  }

  const BEGIN := State(0, None, "", [])

  function CommitAll(m: Metadata, commits: seq<Commit>): Metadata {
    if commits == [] then m
    else Committed(CommitAll(m, commits[..|commits| - 1]), commits[|commits| - 1].slot, commits[|commits| - 1].raw)
  }

  /** The metadata record the walk fills, field by field. */
  class NativeMetadata {
    var standard: map<Field, string>
    var custom: seq<CustomProperty>

    ghost function View(): Metadata
      reads this
    {
      Metadata(standard, custom)
    }

    constructor ()
      ensures View() == Metadata(map[], [])
    {
      standard, custom := map[], [];
    }

    method CommitSlot(slot: Slot, raw: string)
      modifies this
      ensures View() == Committed(old(View()), slot, raw)
    {
      if slot.Custom? {
        var name := Trim(slot.name);
        if name != "" {
          custom := custom + [CustomProperty(name, Trim(raw))];
        }
        return;
      }
      var value := Trim(raw);
      if value == "" {
        return;
      }
      match slot
      case Standard(field) =>
        standard := standard[field := value];
      case KeywordAppend =>
        if Keywords in standard {
          standard := standard[Keywords := standard[Keywords] + ", " + value];
        } else {
          standard := standard[Keywords := value];
        }
    }

    /** The walk as it runs: depth, capture, capture depth and accumulated text. */
    method ParseOfficeMeta(events: seq<Event>) returns (ok: bool)
      modifies this
      ensures ok <==> Run(BEGIN, events).Some?
      ensures ok ==> View() == CommitAll(old(View()), Run(BEGIN, events).value.commits)
    {
      hide SlotForStart, Committed;
      var depth: int := 0;
      var capture: Option<Slot> := None;
      var captureDepth: int := 0;
      var accum := "";
      ghost var commits: seq<Commit> := [];
      ghost var goal := Run(BEGIN, events);
      assert events[0..] == events;
      for i := 0 to |events|
        invariant View() == CommitAll(old(View()), commits)
        invariant goal == Run(State(depth, Captured(capture, captureDepth), accum, commits), events[i..])
      {
        assert events[i..][0] == events[i] && events[i..][1..] == events[i + 1..];
        match events[i] {
          case Start(local, nameAttr) =>
            var slot := SlotForStart(local, nameAttr);
            if slot.Some? {
              capture := slot;
              captureDepth := depth;
              accum := "";
            }
            depth := depth + 1;
          case End =>
            depth := depth - 1;
            if capture.Some? && depth == captureDepth {
              CommitSlot(capture.value, accum);
              ghost var last := Commit(capture.value, accum);
              assert (commits + [last])[..|commits|] == commits;
              commits := commits + [last];
              capture := None;
              accum := "";
            }
          case Text(content) =>
            if capture.Some? {
              if content.None? {
                return false;
              }
              accum := accum + content.value;
            }
          case Other =>
        }
      }
      ok := true;
    }
  }

  function Captured(slot: Option<Slot>, depth: int): Option<Capture> {
    if slot.None? then None else Some(Capture(slot.value, depth))
  }

  // ─── Trees ───

  /** A document as a forest of elements and text; an element that closes itself is its own event. */
  datatype Forest = Nil
                  | Content(text: string, rest: Forest)
                  | Empty(rest: Forest)
                  | Element(local: string, nameAttr: Option<string>, kids: Forest, rest: Forest)

  function Events(f: Forest): seq<Event> {
    match f
    case Nil => []
    case Content(text, rest) => [Text(Some(text))] + Events(rest)
    case Empty(rest) => [Other] + Events(rest)
    case Element(local, nameAttr, kids, rest) => [Start(local, nameAttr)] + (Events(kids) + ([End] + Events(rest)))
  }

  /** Does an element with content fill a field, anywhere in the forest? */
  predicate FillsSome(f: Forest) {
    match f
    case Nil => false
    case Content(_, rest) => FillsSome(rest)
    case Empty(rest) => FillsSome(rest)
    case Element(local, nameAttr, kids, rest) =>
      SlotForStart(local, nameAttr).Some? || FillsSome(kids) || FillsSome(rest)
  }

  /** All text of a forest, nested or not. */
  function TextOf(f: Forest): string {
    match f
    case Nil => ""
    case Content(text, rest) => text + TextOf(rest)
    case Empty(rest) => TextOf(rest)
    case Element(_, _, kids, rest) => TextOf(kids) + TextOf(rest)
  }

  /** The innermost elements that fill a field, in document order, each with the text of its whole subtree. */
  function Innermost(f: Forest): seq<Commit> {
    match f
    case Nil => []
    case Content(_, rest) => Innermost(rest)
    case Empty(rest) => Innermost(rest)
    case Element(local, nameAttr, kids, rest) =>
      var slot := SlotForStart(local, nameAttr);
      (if slot.Some? && !FillsSome(kids) then [Commit(slot.value, TextOf(kids))] else Innermost(kids)) + Innermost(rest)
  }

  lemma {:induction false} NothingInnermost(f: Forest)
    requires !FillsSome(f)
    ensures Innermost(f) == []
  {
    hide SlotForStart;
    match f
    case Nil =>
    case Content(_, rest) => NothingInnermost(rest);
    case Empty(rest) => NothingInnermost(rest);
    case Element(_, _, kids, rest) =>
      NothingInnermost(kids);
      NothingInnermost(rest);
  }

  /** The state after a whole forest: back at the same depth, its innermost fields committed. */
  function After(s: State, f: Forest): State {
    State(s.depth, if FillsSome(f) then None else s.capture,
          if FillsSome(f) then "" else if s.capture.Some? then s.accum + TextOf(f) else s.accum,
          s.commits + Innermost(f))
  }

  /** The walk is inside whatever it captures, and accumulates nothing otherwise. */
  ghost predicate Inside(s: State) {
    (s.capture.Some? ==> s.capture.value.depth < s.depth) && (s.capture.None? ==> s.accum == "")
  }

  lemma RunStep(s: State, e: Event, rest: seq<Event>)
    ensures Run(s, [e] + rest) == if Step(s, e).None? then None else Run(Step(s, e).value, rest)
  {
    hide Step;
    assert ([e] + rest)[1..] == rest;
  }

  /** Walking a forest, whatever comes after it. */
  lemma {:induction false} WalksForest(s: State, f: Forest, tail: seq<Event>)
    requires Inside(s)
    ensures Run(s, Events(f) + tail) == Run(After(s, f), tail) && Inside(After(s, f))
    decreases f
  {
    hide SlotForStart, Run;
    match f
    case Nil =>
      assert Events(f) + tail == tail && s.commits + [] == s.commits && s.accum + "" == s.accum;
    case Content(text, rest) =>
      assert Events(f) + tail == [Text(Some(text))] + (Events(rest) + tail);
      RunStep(s, Text(Some(text)), Events(rest) + tail);
      var next := Step(s, Text(Some(text))).value;
      WalksForest(next, rest, tail);
      assert s.accum + text + TextOf(rest) == s.accum + (text + TextOf(rest));
    case Empty(rest) =>
      assert Events(f) + tail == [Other] + (Events(rest) + tail);
      RunStep(s, Other, Events(rest) + tail);
      WalksForest(s, rest, tail);
    case Element(local, nameAttr, kids, rest) =>
      WalksElement(s, local, nameAttr, kids, rest, tail);
  }

  lemma WalksElement(s: State, local: string, nameAttr: Option<string>, kids: Forest, rest: Forest, tail: seq<Event>)
    requires Inside(s)
    ensures var f := Element(local, nameAttr, kids, rest);
            Run(s, Events(f) + tail) == Run(After(s, f), tail) && Inside(After(s, f))
    decreases Element(local, nameAttr, kids, rest), 0
  {
    hide SlotForStart, Run;
    var f := Element(local, nameAttr, kids, rest);
    var behind := Events(rest) + tail;
    assert Events(f) + tail == [Start(local, nameAttr)] + (Events(kids) + ([End] + behind));
    RunStep(s, Start(local, nameAttr), Events(kids) + ([End] + behind));
    var entered := Step(s, Start(local, nameAttr)).value;
    WalksForest(entered, kids, [End] + behind);
    var inner := After(entered, kids);
    RunStep(inner, End, behind);
    var closed := Step(inner, End).value;
    if !FillsSome(kids) {
      NothingInnermost(kids);
    }
    WalksForest(closed, rest, tail);
    Sums(s, local, nameAttr, kids, rest, closed);
  }

  /** What an element's end leaves is what the forest rule says. */
  lemma Sums(s: State, local: string, nameAttr: Option<string>, kids: Forest, rest: Forest, closed: State)
    requires Inside(s) && (!FillsSome(kids) ==> Innermost(kids) == [])
    requires var inner := After(Step(s, Start(local, nameAttr)).value, kids);
             closed == Step(inner, End).value
    ensures After(closed, rest) == After(s, Element(local, nameAttr, kids, rest)) && Inside(closed)
  {
    hide SlotForStart, TextOf, FillsSome, Innermost;
    ElementParts(local, nameAttr, kids, rest);
    var own := if SlotForStart(local, nameAttr).Some? && !FillsSome(kids)
               then [Commit(SlotForStart(local, nameAttr).value, TextOf(kids))] else Innermost(kids);
    NothingBefore(TextOf(kids));
    NothingAfter(s.commits);
    assert closed.commits == s.commits + own;
    Regroup(s.commits, own, Innermost(rest));
    Regroup(s.accum, TextOf(kids), TextOf(rest));
  }

  lemma Regroup<T>(a: seq<T>, b: seq<T>, c: seq<T>)
    ensures a + b + c == a + (b + c)
  {
  }

  lemma NothingBefore<T>(a: seq<T>)
    ensures [] + a == a
  {
  }

  lemma NothingAfter<T>(a: seq<T>)
    ensures a + [] == a
  {
  }

  lemma ElementParts(local: string, nameAttr: Option<string>, kids: Forest, rest: Forest)
    ensures var f := Element(local, nameAttr, kids, rest);
            TextOf(f) == TextOf(kids) + TextOf(rest) &&
            (FillsSome(f) <==> SlotForStart(local, nameAttr).Some? || FillsSome(kids) || FillsSome(rest)) &&
            Innermost(f) ==
              (if SlotForStart(local, nameAttr).Some? && !FillsSome(kids)
               then [Commit(SlotForStart(local, nameAttr).value, TextOf(kids))] else Innermost(kids)) + Innermost(rest)
  {
    hide SlotForStart;
  }

  /** The walk commits exactly the innermost field-filling elements, in document order, each with its whole text. */
  lemma WalkCommitsInnermost(f: Forest)
    ensures Run(BEGIN, Events(f)).Some? && Run(BEGIN, Events(f)).value.commits == Innermost(f)
  {
    hide Events, Innermost, TextOf, FillsSome;
    WalksForest(BEGIN, f, []);
    assert Events(f) + [] == Events(f) && [] + Innermost(f) == Innermost(f);
  }

  // ─── What the commits leave ───

  /**
   What a field is made of: its last value that is not blank and, for the keywords, every further keyword behind it.
   A blank value adds nothing and clears nothing.
   */
  function Parts(commits: seq<Commit>, field: Field): seq<string> {
    if commits == [] then []
    else
      var last := commits[|commits| - 1];
      var before := commits[..|commits| - 1];
      if Trim(last.raw) == "" then Parts(before, field)
      else if last.slot == Standard(field) then [Trim(last.raw)]
      else if last.slot == KeywordAppend && field == Keywords then Parts(before, field) + [Trim(last.raw)]
      else Parts(before, field)
  }

  /** Only the keywords have more than one part. */
  lemma {:induction false} SinglePart(commits: seq<Commit>, field: Field)
    ensures field != Keywords ==> |Parts(commits, field)| <= 1
    ensures forall i :: 0 <= i < |Parts(commits, field)| ==> Parts(commits, field)[i] != ""
  {
    hide Trim;
    if commits == [] {
    } else {
      SinglePart(commits[..|commits| - 1], field);
    }
  }

  function Joined(parts: seq<string>): string {
    if parts == [] then ""
    else if |parts| == 1 then parts[0]
    else Joined(parts[..|parts| - 1]) + ", " + parts[|parts| - 1]
  }

  /** Every field ends up with its parts, joined by commas, and is absent exactly when it has none. */
  lemma {:induction false} LastNonBlankWins(commits: seq<Commit>, field: Field)
    ensures var m := CommitAll(Metadata(map[], []), commits);
            (field in m.standard <==> Parts(commits, field) != []) &&
            (field in m.standard ==> m.standard[field] == Joined(Parts(commits, field)))
  {
    hide Trim, Joined;
    if commits == [] {
    } else {
      var before, last := commits[..|commits| - 1], commits[|commits| - 1];
      LastNonBlankWins(before, field);
      JoinedWith(Parts(before, field), Trim(last.raw));
    }
  }

  lemma JoinedWith(parts: seq<string>, last: string)
    ensures Joined([last]) == last
    ensures Joined(parts + [last]) == if parts == [] then last else Joined(parts) + ", " + last
  {
    assert (parts + [last])[..|parts|] == parts;
  }

  /** The properties kept: those with a name, in document order. */
  function Named(commits: seq<Commit>): seq<CustomProperty> {
    if commits == [] then []
    else
      var last := commits[|commits| - 1];
      Named(commits[..|commits| - 1]) +
      if last.slot.Custom? && Trim(last.slot.name) != ""
      then [CustomProperty(Trim(last.slot.name), Trim(last.raw))] else []
  }

  lemma {:induction false} CustomInOrder(commits: seq<Commit>)
    ensures CommitAll(Metadata(map[], []), commits).custom == Named(commits)
  {
    hide Trim;
    if commits == [] {
    } else {
      CustomInOrder(commits[..|commits| - 1]);
    }
  }

  /** A field of the record is its parts, joined; all but the keywords have at most one. */
  ghost predicate FieldOf(m: Metadata, field: Field, commits: seq<Commit>) {
    (field in m.standard <==> Parts(commits, field) != []) &&
    (field in m.standard ==> m.standard[field] == Joined(Parts(commits, field))) &&
    (field != Keywords ==> |Parts(commits, field)| <= 1)
  }

  /** What the metadata of a document is, said of the document. */
  ghost predicate RecordOf(m: Metadata, f: Forest) {
    m.custom == Named(Innermost(f)) && forall field: Field :: FieldOf(m, field, Innermost(f))
  }

  /** From the tree to the record: for every well-formed tree, the walk leaves exactly the record of that tree. */
  lemma TreeToRecord(f: Forest)
    ensures Run(BEGIN, Events(f)).Some? &&
            RecordOf(CommitAll(Metadata(map[], []), Run(BEGIN, Events(f)).value.commits), f)
  {
    hide Run, Innermost, Parts, Joined, Named, CommitAll, Events;
    WalkCommitsInnermost(f);
    CustomInOrder(Innermost(f));
    var m := CommitAll(Metadata(map[], []), Innermost(f));
    forall field: Field
      ensures FieldOf(m, field, Innermost(f))
    {
      LastNonBlankWins(Innermost(f), field);
      SinglePart(Innermost(f), field);
    }
  }
  // ─── Names and blanks ───

  /** The element names that fill a field, in the words of both formats. */
  const FIELD_NAMES: map<string, Field> := map[
    "title" := Title, "subject" := Subject, "creator" := Creator, "description" := Description,
    "keywords" := Keywords, "lastModifiedBy" := LastModifiedBy, "category" := Category, "created" := Created,
    "creation-date" := Created, "modified" := Modified, "date" := Modified, "Application" := Application,
    "Company" := Company, "Words" := WordCount, "Pages" := PageCount, "Characters" := CharacterCount]

  /** Every name fills its field, appends a keyword, opens a custom property, or is not looked at. */
  lemma Recognised(local: string, nameAttr: Option<string>)
    ensures SlotForStart(local, nameAttr) ==
            if local in FIELD_NAMES then Some(Standard(FIELD_NAMES[local]))
            else if local == "keyword" then Some(KeywordAppend)
            else if local == "property" || local == "user-defined"
            then Some(Custom(if nameAttr.Some? then nameAttr.value else ""))
            else None
  {
  }

  /** The 25 code points with the White_Space property. */
  const WHITE_SPACE: set<int> := {
    9, 10, 11, 12, 13, 0x20, 0x85, 0xA0, 0x1680, 0x2000, 0x2001, 0x2002, 0x2003, 0x2004, 0x2005, 0x2006, 0x2007, 0x2008,
    0x2009, 0x200A, 0x2028, 0x2029, 0x202F, 0x205F, 0x3000}

  lemma SpaceIs(c: char)
    ensures IsSpace(c) <==> c as int in WHITE_SPACE
  {
  }

  ghost predicate Blank(s: string) {
    forall i :: 0 <= i < |s| ==> s[i] as int in WHITE_SPACE
  }

  /** Trimming takes white space off both ends, all of it and nothing else. */
  lemma TrimIs(s: string) returns (front: string, back: string)
    ensures s == front + Trim(s) + back && Blank(front) && Blank(back)
    ensures var t := Trim(s);
            t != "" ==> t[0] as int !in WHITE_SPACE && t[|t| - 1] as int !in WHITE_SPACE
  {
    hide IsSpace, WHITE_SPACE, TrimStart, TrimEnd;
    front := StartTrimmed(s);
    back := EndTrimmed(TrimStart(s));
    Joined3(front, Trim(s), back);
    var t := Trim(s);
    if t != "" {
      assert t[0] == (t + back)[0] == TrimStart(s)[0];
      SpaceIs(t[0]);
      SpaceIs(t[|t| - 1]);
    }
  }

  lemma Joined3(a: string, b: string, c: string)
    ensures a + (b + c) == a + b + c
  {
  }

  lemma {:induction false} StartTrimmed(s: string) returns (front: string)
    ensures s == front + TrimStart(s) && Blank(front)
    ensures TrimStart(s) != "" ==> !IsSpace(TrimStart(s)[0])
  {
    hide IsSpace, WHITE_SPACE;
    front := "";
    if s != "" && IsSpace(s[0]) {
      SpaceIs(s[0]);
      var more := StartTrimmed(s[1..]);
      front := [s[0]] + more;
    }
  }

  lemma {:induction false} EndTrimmed(s: string) returns (back: string)
    ensures s == TrimEnd(s) + back && Blank(back)
    ensures TrimEnd(s) != "" ==> !IsSpace(TrimEnd(s)[|TrimEnd(s)| - 1])
  {
    hide IsSpace, WHITE_SPACE;
    back := "";
    if s != "" && IsSpace(s[|s| - 1]) {
      SpaceIs(s[|s| - 1]);
      var more := EndTrimmed(s[..|s| - 1]);
      back := more + [s[|s| - 1]];
    }
  }
  // ─── What fails ───

  /** Event `i` is text that cannot be read, and the walk is capturing when it comes. */
  ghost predicate BadAt(s: State, events: seq<Event>, i: nat) {
    i < |events| && events[i] == Text(None) &&
    Run(s, events[..i]).Some? && Run(s, events[..i]).value.capture.Some?
  }

  lemma RunAfter(s: State, events: seq<Event>, i: nat)
    requires events != [] && Step(s, events[0]).Some?
    ensures BadAt(s, events, i + 1) <==> BadAt(Step(s, events[0]).value, events[1..], i)
  {
    hide Step;
    if i < |events[1..]| {
      assert events[..i + 1][0] == events[0] && events[..i + 1][1..] == events[1..][..i];
    }
  }

  /** The walk fails exactly when text that cannot be read comes while an element is being captured. */
  lemma {:induction false} FailsExactly(s: State, events: seq<Event>)
    ensures Run(s, events).None? <==> exists i: nat :: BadAt(s, events, i)
    decreases |events|
  {
    hide Step, BadAt;
    if events == [] {
      NothingBad(s);
    } else {
      StepFails(s, events);
      if Step(s, events[0]).Some? {
        var next := Step(s, events[0]).value;
        FailsExactly(next, events[1..]);
        if i: nat :| BadAt(s, events, i) {
          if i > 0 {
            RunAfter(s, events, i - 1);
          }
        }
        if i: nat :| BadAt(next, events[1..], i) {
          RunAfter(s, events, i);
        }
      }
    }
  }

  lemma NothingBad(s: State)
    ensures forall i: nat :: !BadAt(s, [], i)
  {
  }

  lemma StepFails(s: State, events: seq<Event>)
    requires events != []
    ensures BadAt(s, events, 0) <==> Step(s, events[0]).None?
  {
    hide SlotForStart;
    assert events[..0] == [];
  }
}
