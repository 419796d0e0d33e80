/**
 Inserting carriers: one invisible character a bit, placed at the writable gaps of a text,
 whatever does not fit appended after it.
 */
module Carriers {
  import opened Results
  import opened Bytes

  /**
   A carrier that inserts characters of its own alphabet. `delimiter` separates groups of eight bits
   when there is one; `alsoStrips` are characters its strip removes besides its alphabet; a carrier
   that does not overflow refuses more bits than the cover has positions for.
   */
  datatype Carrier = Carrier(id: string, zero: char, one: char, delimiter: Option<char>,
                             alsoStrips: set<char>, overflows: bool)
  {
    predicate IsBit(ch: char) {
      ch == zero || ch == one
    }

    predicate InChannel(ch: char) {
      IsBit(ch) || delimiter == Some(ch)
    }

    predicate Strips(ch: char) {
      InChannel(ch) || ch in alsoStrips
    }

    ghost predicate WellFormed() {
      zero != one && delimiter != Some(zero) && delimiter != Some(one)
    }

    /** The alphabet in the order the carrier lists it. */
    function Channel(): seq<char> {
      [zero, one] + if delimiter.Some? then [delimiter.value] else []
    }
  }

  /** The carriers' names, in order. */
  function Ids(carriers: seq<Carrier>): (ids: seq<string>)
    ensures |ids| == |carriers| && forall i :: 0 <= i < |carriers| ==> ids[i] == carriers[i].id
  {
    seq(|carriers|, i requires 0 <= i < |carriers| => carriers[i].id)
  }

  const ZERO_WIDTH := Carrier("zero_width", '\U{200B}', '\U{200C}', None, {}, true)

  const WHITESPACE_VAR := Carrier("whitespace_var", '\U{2060}', '\U{FEFF}', Some('\U{2063}'),
                                  {'\U{2061}', '\U{2062}', '\U{2064}'}, false)

  const BIDI := Carrier("bidi", '\U{200E}', '\U{200F}', Some('\U{202C}'),
                        {'\U{202A}', '\U{202B}', '\U{202D}', '\U{202E}',
                         '\U{2066}', '\U{2067}', '\U{2068}', '\U{2069}'}, false)

  /**
   Where a text may be written. `alphanumeric` is the character table of the string library; `protects` says
   which gaps touch code or an equation.
   */
  datatype Geometry = Geometry(alphanumeric: char -> bool, protects: (string, nat) -> bool)
  {
    predicate IsWordChar(c: char) {
      alphanumeric(c) || c == '_'
    }

    /** Gap `k`, before the `k`-th character, is open at word boundaries and at both ends of the text. */
    predicate Writable(text: string, k: nat) {
      (k == 0 || k >= |text| || !(IsWordChar(text[k - 1]) && IsWordChar(text[k]))) && !protects(text, k)
    }
  }

  predicate IsFormatControl(c: char) {
    c == '\U{00AD}' || c == '\U{061C}' || '\U{200B}' <= c <= '\U{200F}' || '\U{202A}' <= c <= '\U{202E}' ||
    '\U{2060}' <= c <= '\U{2064}' || '\U{2066}' <= c <= '\U{2069}' || c == '\U{FEFF}'
  }

  function Keep(s: string, p: char -> bool): (r: string)
    ensures forall i :: 0 <= i < |r| ==> p(r[i])
  {
    if s == "" then "" else (if p(s[0]) then [s[0]] else "") + Keep(s[1..], p)
  }

  /** The visible skeleton: format controls are occupancy, not structure. */
  function Skeleton(text: string): string {
    Keep(text, c => !IsFormatControl(c))
  }

  function CountWritable(g: Geometry, text: string, k: nat): nat
    decreases |text| + 1 - k
  {
    if k > |text| then 0 else (if g.Writable(text, k) then 1 else 0) + CountWritable(g, text, k + 1)
  }

  function BoundarySlots(g: Geometry, text: string): nat {
    CountWritable(g, Skeleton(text), 0)
  }

  /** Payload bits a text offers: a slot a bit, less the delimiters between bytes. */
  function Positions(g: Geometry, c: Carrier, text: string): (n: nat)
    ensures c.delimiter.Some? ==> n % 8 == 0
  {
    var slots := BoundarySlots(g, text);
    if c.delimiter.None? then slots else if slots < 8 then 0 else (slots + 1) / 9 * 8
  }

  function ReadPositions(c: Carrier, text: string): seq<bool> {
    if text == "" then []
    else (if text[0] == c.zero then [false] else if text[0] == c.one then [true] else []) + ReadPositions(c, text[1..])
  }

  /** How many characters of the carrier's alphabet a text already holds. */
  function Occupied(c: Carrier, text: string): (n: nat)
    ensures n <= |text|
    ensures n == 0 <==> forall i :: 0 <= i < |text| ==> !c.InChannel(text[i])
  {
    if text == "" then 0
    else
      var behind := Occupied(c, text[1..]);
      assert forall i :: 0 < i < |text| ==> text[i] == text[1..][i - 1];
      (if c.InChannel(text[0]) then 1 else 0) + behind
  }

  /** A cover that already holds the carrier's alphabet is refused by name. */
  function CheckWritable(c: Carrier, cover: string): (r: Result<()>)
    ensures r.Ok? <==> forall i :: 0 <= i < |cover| ==> !c.InChannel(cover[i])
  {
    if Occupied(c, cover) == 0 then Ok(()) else Err(EncodingFailed(c.id))
  }

  function BitChar(c: Carrier, bit: bool): char {
    if bit then c.one else c.zero
  }

  /** The characters for `bits`, the first of them the `i`-th of the stream. */
  function SequenceFrom(c: Carrier, bits: seq<bool>, i: nat): string
    decreases |bits|
  {
    if bits == [] then ""
    else (if c.delimiter.Some? && i > 0 && i % 8 == 0 then [c.delimiter.value] else "") +
         [BitChar(c, bits[0])] + SequenceFrom(c, bits[1..], i + 1)
  }

  /** Cover and sequence merged from gap `k` on; the rest of the sequence is the overflow tail. */
  function PlaceFrom(g: Geometry, cover: string, k: nat, sequence: string): string
    requires k <= |cover|
    decreases |cover| - k
  {
    if k == |cover| then sequence
    else if g.Writable(cover, k) && sequence != "" then
      [sequence[0], cover[k]] + PlaceFrom(g, cover, k + 1, sequence[1..])
    else [cover[k]] + PlaceFrom(g, cover, k + 1, sequence)
  }

  function Place(g: Geometry, cover: string, sequence: string): string {
    PlaceFrom(g, cover, 0, sequence)
  }

  function WritePositions(g: Geometry, c: Carrier, cover: string, bits: seq<bool>): Result<string> {
    var _ :- CheckWritable(c, cover);
    if !c.overflows && |bits| > Positions(g, c, cover)
    then Err(CapacityExceeded(|bits|, Positions(g, c, cover)))
    else Ok(Place(g, cover, SequenceFrom(c, bits, 0)))
  }

  /** Does the cover bound this carrier? Measured by offering one bit more than it has positions for. */
  function CoverBoundsWrites(g: Geometry, c: Carrier, cover: string): (r: bool)
    ensures r <==> !c.overflows || CheckWritable(c, cover).Err?
  {
    WritePositions(g, c, cover, seq(Positions(g, c, cover) + 1, _ => false)).Err?
  }

  function Encode(g: Geometry, c: Carrier, cover: string, payload: seq<byte>): Result<string> {
    if c.overflows && payload == [] then Err(InvalidInput)
    else WritePositions(g, c, cover, BytesToBits(payload))
  }

  /** The bytes a whole number of groups spells; a channel that ends mid-byte is refused. */
  function Decode(c: Carrier, stego: string): Result<seq<byte>> {
    var bits := ReadPositions(c, stego);
    if bits == [] then Err(NothingDetected)
    else if |bits| % 8 != 0 then Err(DecodingFailed(c.id))
    else Ok(BitsToBytes(bits))
  }

  function Strip(c: Carrier, text: string): string {
    Keep(text, ch => !c.Strips(ch))
  }

  // ─── Where characters may stand ───

  /** Between two characters of one word: letters, digits and underscores are what a double click selects. */
  ghost predicate InsideWord(g: Geometry, text: string, k: nat) {
    0 < k < |text| && (g.alphanumeric(text[k - 1]) || text[k - 1] == '_') && (g.alphanumeric(text[k]) || text[k] == '_')
  }

  /** Outside every word and clear of code and equations. */
  ghost predicate OpenGap(g: Geometry, text: string, k: nat) {
    k <= |text| && !InsideWord(g, text, k) && !g.protects(text, k)
  }

  ghost function OpenGaps(g: Geometry, text: string, from: nat): set<nat> {
    set k: nat | from <= k <= |text| && OpenGap(g, text, k)
  }

  /** The slots counted are the open gaps of the visible text. */
  lemma {:induction false} CountsOpenGaps(g: Geometry, text: string, k: nat)
    requires k <= |text| + 1
    ensures CountWritable(g, text, k) == |OpenGaps(g, text, k)|
    decreases |text| + 1 - k
  {
    if k > |text| {
      assert OpenGaps(g, text, k) == {};
    } else {
      CountsOpenGaps(g, text, k + 1);
      if OpenGap(g, text, k) {
        assert OpenGaps(g, text, k) == OpenGaps(g, text, k + 1) + {k};
      } else {
        assert OpenGaps(g, text, k) == OpenGaps(g, text, k + 1);
      }
    }
  }

  lemma SlotsAreOpenGaps(g: Geometry, text: string)
    ensures BoundarySlots(g, text) == |OpenGaps(g, Skeleton(text), 0)|
  {
    hide Skeleton;
    CountsOpenGaps(g, Skeleton(text), 0);
  }

  /** Marks put before each character of a text, and behind the last. */
  function Woven(text: string, marks: seq<string>): string
    requires |marks| == |text| + 1
  {
    if text == "" then marks[0] else marks[0] + [text[0]] + Woven(text[1..], marks[1..])
  }

  function Flat(marks: seq<string>): string
    decreases marks
  {
    if marks == [] then "" else marks[0] + Flat(marks[1..])
  }

  /**
   The cover, at most one character of the sequence before each of its own, only at open gaps and at every one of them
   until the sequence is used up; what is left stands behind the text.
   */
  ghost predicate Fills(g: Geometry, cover: string, from: nat, sequence: string, marks: seq<string>)
    requires from <= |cover| && |marks| == |cover| - from + 1
  {
    Flat(marks) == sequence && forall k :: 0 <= k < |cover| - from ==> MarkedWell(g, cover, from + k, marks[k..])
  }

  /** The first of these marks stands at gap `k`, the others behind it. */
  ghost predicate MarkedWell(g: Geometry, cover: string, k: nat, marks: seq<string>)
    requires marks != []
  {
    |marks[0]| <= 1 && (marks[0] != "" ==> OpenGap(g, cover, k)) &&
    (OpenGap(g, cover, k) && marks[0] == "" ==> Flat(marks) == "")
  }

  ghost predicate PlacedAtOpenGaps(g: Geometry, cover: string, sequence: string, result: string) {
    exists marks: seq<string> ::
      |marks| == |cover| + 1 && Fills(g, cover, 0, sequence, marks) && result == Woven(cover, marks)
  }

  lemma {:induction false} PlacesFrom(g: Geometry, cover: string, from: nat,
                                      sequence: string) returns (marks: seq<string>)
    requires from <= |cover|
    ensures |marks| == |cover| - from + 1 && Fills(g, cover, from, sequence, marks)
    ensures PlaceFrom(g, cover, from, sequence) == Woven(cover[from..], marks)
    decreases |cover| - from
  {
    hide OpenGap;
    GapIsWritable(g, cover, from);
    if from == |cover| {
      marks := [sequence];
      assert marks[1..] == [] && Flat(marks[1..]) == "";
      assert Flat(marks) == sequence + "" == sequence;
    } else {
      var used := g.Writable(cover, from) && sequence != "";
      var first := if used then [sequence[0]] else "";
      var rest := PlacesFrom(g, cover, from + 1, if used then sequence[1..] else sequence);
      marks := [first] + rest;
      assert cover[from..][1..] == cover[from + 1..] && marks[1..] == rest;
      assert used ==> [sequence[0]] + sequence[1..] == sequence;
      assert Flat(marks) == first + Flat(rest) == sequence;
      assert marks[0..] == marks && MarkedWell(g, cover, from, marks);
      MarksShift(g, cover, from, sequence, marks, first, rest, if used then sequence[1..] else sequence);
      FirstWoven(first, cover[from], Woven(cover[from + 1..], rest));
    }
  }

  lemma GapIsWritable(g: Geometry, text: string, k: nat)
    requires k <= |text|
    ensures OpenGap(g, text, k) <==> g.Writable(text, k)
  {
  }

  lemma MarksShift(g: Geometry, cover: string, from: nat, sequence: string, marks: seq<string>, first: string,
                   rest: seq<string>, others: string)
    requires from < |cover| && |rest| == |cover| - from && marks == [first] + rest && Flat(marks) == sequence
    requires Fills(g, cover, from + 1, others, rest) && MarkedWell(g, cover, from, marks)
    ensures Fills(g, cover, from, sequence, marks)
  {
    hide MarkedWell, Flat;
    forall k | 0 <= k < |cover| - from
      ensures MarkedWell(g, cover, from + k, marks[k..])
    {
      if k == 0 {
        assert marks[0..] == marks;
      } else {
        assert marks[k..] == rest[k - 1..];
        assert MarkedWell(g, cover, from + 1 + (k - 1), rest[k - 1..]);
      }
    }
  }

  lemma FirstWoven(first: string, ch: char, rest: string)
    ensures |first| == 1 ==> [first[0], ch] + rest == first + [ch] + rest
    ensures first == "" ==> [ch] + rest == first + [ch] + rest
  {
  }

  lemma PlacesAtOpenGaps(g: Geometry, cover: string, sequence: string)
    ensures PlacedAtOpenGaps(g, cover, sequence, Place(g, cover, sequence))
  {
    hide Fills;
    var marks := PlacesFrom(g, cover, 0, sequence);
    assert cover[0..] == cover;
  }

  /** A group of eight bits, and a delimiter before every group but the first. */
  lemma {:induction false} SequenceLength(c: Carrier, bits: seq<bool>, i: nat)
    ensures |SequenceFrom(c, bits, i)| ==
            |bits| + if c.delimiter.None? then 0 else Groups(i + |bits|) - Groups(i)
    decreases |bits|
  {
    if bits == [] {
    } else {
      SequenceLength(c, bits[1..], i + 1);
    }
  }

  /** Delimiters that stand before the first `n` bits of a stream. */
  function Groups(n: nat): nat {
    if n == 0 then 0 else (n - 1) / 8
  }

  /** The positions offered are exactly the whole bytes whose characters, delimiters included, find a slot each. */
  lemma PositionsFit(g: Geometry, c: Carrier, text: string, bits: seq<bool>)
    requires |bits| % 8 == 0
    ensures |bits| <= Positions(g, c, text) <==> |SequenceFrom(c, bits, 0)| <= BoundarySlots(g, text)
  {
    hide BoundarySlots, SequenceFrom;
    SequenceLength(c, bits, 0);
    WholeGroups(|bits|, BoundarySlots(g, text));
  }

  lemma WholeGroups(n: nat, slots: nat)
    requires n % 8 == 0
    ensures n + Groups(n) <= slots <==> n <= if slots < 8 then 0 else (slots + 1) / 9 * 8
  {
    var k := n / 8;
    assert n == 8 * k && (n > 0 ==> Groups(n) == k - 1);
  }

  // ─── The placement loop ───

  lemma PlaceInserts(g: Geometry, cover: string, k: nat, sequence: string, next: nat)
    requires k < |cover| && next < |sequence| && g.Writable(cover, k)
    ensures PlaceFrom(g, cover, k, sequence[next..])
         == [sequence[next], cover[k]] + PlaceFrom(g, cover, k + 1, sequence[next + 1..])
  {
    assert sequence[next..][1..] == sequence[next + 1..];
  }

  lemma PlaceCopies(g: Geometry, cover: string, k: nat, sequence: string, next: nat)
    requires k < |cover| && next <= |sequence| && !(g.Writable(cover, k) && next < |sequence|)
    ensures PlaceFrom(g, cover, k, sequence[next..]) == [cover[k]] + PlaceFrom(g, cover, k + 1, sequence[next..])
  {
  }

  lemma Regroup(a: string, b: string, c: string)
    ensures a + (b + c) == (a + b) + c
  {
  }

  method PlaceAtWordBoundaries(g: Geometry, cover: string, sequence: string) returns (result: string)
    ensures result == Place(g, cover, sequence)
    ensures PlacedAtOpenGaps(g, cover, sequence, result)
  {
    hide PlacedAtOpenGaps, Geometry.Writable;
    PlacesAtOpenGaps(g, cover, sequence);
    result := "";
    var next := 0;
    ghost var rest := Place(g, cover, sequence);
    assert sequence[0..] == sequence;
    for k := 0 to |cover|
      invariant 0 <= next <= |sequence| && rest == PlaceFrom(g, cover, k, sequence[next..])
      invariant Place(g, cover, sequence) == result + rest
    {
      rest := PlaceFrom(g, cover, k + 1,
                        if g.Writable(cover, k) && next < |sequence| then sequence[next + 1..] else sequence[next..]);
      if g.Writable(cover, k) && next < |sequence| {
        PlaceInserts(g, cover, k, sequence, next);
        Regroup(result, [sequence[next], cover[k]], rest);
        result := result + [sequence[next], cover[k]];
        next := next + 1;
      } else {
        PlaceCopies(g, cover, k, sequence, next);
        Regroup(result, [cover[k]], rest);
        result := result + [cover[k]];
      }
    }
    result := result + sequence[next..];
  }

  // ─── What placing and stripping keep ───

  lemma {:induction false} KeepAll(s: string, p: char -> bool)
    requires forall i :: 0 <= i < |s| ==> p(s[i])
    ensures Keep(s, p) == s
  {
    if s == "" {
    } else {
      KeepAll(s[1..], p);
    }
  }

  lemma {:induction false} KeepNone(s: string, p: char -> bool)
    requires forall i :: 0 <= i < |s| ==> !p(s[i])
    ensures Keep(s, p) == ""
  {
    if s == "" {
    } else {
      KeepNone(s[1..], p);
    }
  }

  /** Only texts free of the dropped characters are kept whole. */
  lemma {:induction false} KeepWholeOnlyIf(s: string, p: char -> bool)
    ensures |Keep(s, p)| <= |s|
    ensures Keep(s, p) == s ==> forall i :: 0 <= i < |s| ==> p(s[i])
  {
    if s == "" {
    } else {
      KeepWholeOnlyIf(s[1..], p);
      if Keep(s, p) == s {
        assert p(s[0]);
        assert Keep(s, p)[1..] == Keep(s[1..], p);
        assert forall i :: 1 <= i < |s| ==> s[i] == s[1..][i - 1];
      }
    }
  }

  lemma KeepCons(c: char, s: string, p: char -> bool)
    ensures Keep([c] + s, p) == (if p(c) then [c] else "") + Keep(s, p)
  {
    assert ([c] + s)[1..] == s;
  }

  /** A filter that drops every inserted character sees only the cover. */
  lemma {:induction false} PlacedHidden(g: Geometry, cover: string, k: nat, sequence: string, p: char -> bool)
    requires k <= |cover| && forall i :: 0 <= i < |sequence| ==> !p(sequence[i])
    ensures Keep(PlaceFrom(g, cover, k, sequence), p) == Keep(cover[k..], p)
    decreases |cover| - k
  {
    if k == |cover| {
      KeepNone(sequence, p);
    } else {
      assert cover[k..][1..] == cover[k + 1..];
      var rest := if g.Writable(cover, k) && sequence != "" then sequence[1..] else sequence;
      PlacedHidden(g, cover, k + 1, rest, p);
      var tail := PlaceFrom(g, cover, k + 1, rest);
      KeepCons(cover[k], tail, p);
      if g.Writable(cover, k) && sequence != "" {
        KeepCons(sequence[0], [cover[k]] + tail, p);
        assert [sequence[0], cover[k]] + tail == [sequence[0]] + ([cover[k]] + tail);
      }
    }
  }

  /** A filter that drops every cover character sees only the sequence, in order. */
  lemma {:induction false} CoverHidden(g: Geometry, cover: string, k: nat, sequence: string, p: char -> bool)
    requires k <= |cover| && forall i :: k <= i < |cover| ==> !p(cover[i])
    ensures Keep(PlaceFrom(g, cover, k, sequence), p) == Keep(sequence, p)
    decreases |cover| - k
  {
    if k == |cover| {
    } else if g.Writable(cover, k) && sequence != "" {
      CoverHidden(g, cover, k + 1, sequence[1..], p);
      InsertedKept(sequence, cover[k], PlaceFrom(g, cover, k + 1, sequence[1..]), p);
    } else {
      CoverHidden(g, cover, k + 1, sequence, p);
      KeepCons(cover[k], PlaceFrom(g, cover, k + 1, sequence), p);
    }
  }

  lemma InsertedKept(sequence: string, visible: char, tail: string, p: char -> bool)
    requires sequence != "" && !p(visible) && Keep(tail, p) == Keep(sequence[1..], p)
    ensures Keep([sequence[0], visible] + tail, p) == Keep(sequence, p)
  {
    KeepCons(visible, tail, p);
    KeepCons(sequence[0], [visible] + tail, p);
    assert [sequence[0], visible] + tail == [sequence[0]] + ([visible] + tail);
  }

  lemma {:induction false} SequenceInChannel(c: Carrier, bits: seq<bool>, i: nat)
    ensures forall j :: 0 <= j < |SequenceFrom(c, bits, i)| ==> c.InChannel(SequenceFrom(c, bits, i)[j])
    decreases |bits|
  {
    if bits == [] {
    } else {
      SequenceInChannel(c, bits[1..], i + 1);
    }
  }

  // ─── Reading ───

  lemma {:induction false} ReadConcat(c: Carrier, a: string, b: string)
    ensures ReadPositions(c, a + b) == ReadPositions(c, a) + ReadPositions(c, b)
  {
    if a == "" {
      assert a + b == b;
    } else {
      assert (a + b)[1..] == a[1..] + b;
      ReadConcat(c, a[1..], b);
    }
  }

  /** Reading looks at the carrier's own characters and nothing else. */
  lemma {:induction false} ReadSeesOwn(c: Carrier, text: string, p: char -> bool)
    requires p(c.zero) && p(c.one)
    ensures ReadPositions(c, Keep(text, p)) == ReadPositions(c, text)
  {
    if text == "" {
    } else {
      ReadSeesOwn(c, text[1..], p);
      ReadConcat(c, if p(text[0]) then [text[0]] else "", Keep(text[1..], p));
      assert [text[0]][1..] == "";
    }
  }

  lemma {:induction false} ReadNone(c: Carrier, text: string)
    requires forall i :: 0 <= i < |text| ==> !c.IsBit(text[i])
    ensures ReadPositions(c, text) == []
  {
    if text == "" {
    } else {
      ReadNone(c, text[1..]);
    }
  }

  lemma ReadGroup(c: Carrier, gap: string, bit: bool, rest: string)
    requires c.WellFormed() && (gap == "" || (c.delimiter.Some? && gap == [c.delimiter.value]))
    ensures ReadPositions(c, gap + [BitChar(c, bit)] + rest) == [bit] + ReadPositions(c, rest)
  {
    var s := [BitChar(c, bit)] + rest;
    assert s[1..] == rest;
    if gap == "" {
      assert gap + [BitChar(c, bit)] + rest == s;
    } else {
      assert (gap + [BitChar(c, bit)] + rest)[1..] == s;
    }
  }

  lemma {:induction false} ReadSequence(c: Carrier, bits: seq<bool>, i: nat)
    requires c.WellFormed()
    ensures ReadPositions(c, SequenceFrom(c, bits, i)) == bits
    decreases |bits|
  {
    if bits == [] {
    } else {
      ReadSequence(c, bits[1..], i + 1);
      var gap := if c.delimiter.Some? && i > 0 && i % 8 == 0 then [c.delimiter.value] else "";
      ReadGroup(c, gap, bits[0], SequenceFrom(c, bits[1..], i + 1));
      assert bits == [bits[0]] + bits[1..];
    }
  }

  /** Bits written into a text free of the carrier's alphabet read back in order. */
  lemma ReadAfterWrite(g: Geometry, c: Carrier, cover: string, bits: seq<bool>)
    requires c.WellFormed() && CheckWritable(c, cover).Ok?
    ensures ReadPositions(c, Place(g, cover, SequenceFrom(c, bits, 0))) == bits
  {
    var sequence := SequenceFrom(c, bits, 0);
    var own := ch => c.InChannel(ch);
    CoverHidden(g, cover, 0, sequence, own);
    SequenceInChannel(c, bits, 0);
    KeepAll(sequence, own);
    ReadSequence(c, bits, 0);
    ReadSeesOwn(c, Place(g, cover, sequence), own);
  }

  /**
   What a carrier writes of its own accord, bytes and no frame, it gives back; one that overflows refuses to
   write none.
   */
  lemma EncodeDecodes(g: Geometry, c: Carrier, cover: string, payload: seq<byte>)
    requires c.WellFormed()
    ensures payload != [] && Encode(g, c, cover, payload).Ok? ==>
            Decode(c, Encode(g, c, cover, payload).value) == Ok(payload)
    ensures c.overflows && payload == [] ==> Encode(g, c, cover, payload) == Err(InvalidInput)
  {
    hide Place, SequenceFrom, Positions, CheckWritable;
    if Encode(g, c, cover, payload).Ok? && payload != [] {
      ReadAfterWrite(g, c, cover, BytesToBits(payload));
    }
    BitsToBytesInverts(payload, []);
    assert BytesToBits(payload) + [] == BytesToBits(payload) && payload + [] == payload;
  }

  /** Another carrier's insertions do not change what a carrier reads. */
  lemma ReadAcrossWrite(g: Geometry, c: Carrier, other: Carrier, cover: string, bits: seq<bool>)
    requires !other.InChannel(c.zero) && !other.InChannel(c.one)
    ensures ReadPositions(c, Place(g, cover, SequenceFrom(other, bits, 0))) == ReadPositions(c, cover)
  {
    var sequence := SequenceFrom(other, bits, 0);
    var foreign := ch => !other.InChannel(ch);
    SequenceInChannel(other, bits, 0);
    PlacedHidden(g, cover, 0, sequence, foreign);
    assert cover[0..] == cover;
    ReadSeesOwn(c, Place(g, cover, sequence), foreign);
    ReadSeesOwn(c, cover, foreign);
  }

  lemma ReadAcrossStrip(c: Carrier, other: Carrier, text: string)
    requires !other.Strips(c.zero) && !other.Strips(c.one)
    ensures ReadPositions(c, Strip(other, text)) == ReadPositions(c, text)
  {
    ReadSeesOwn(c, text, ch => !other.Strips(ch));
  }

  /** Stripping forgets a write. */
  lemma StripForgets(g: Geometry, c: Carrier, cover: string, bits: seq<bool>)
    ensures Strip(c, Place(g, cover, SequenceFrom(c, bits, 0))) == Strip(c, cover)
  {
    SequenceInChannel(c, bits, 0);
    PlacedHidden(g, cover, 0, SequenceFrom(c, bits, 0), ch => !c.Strips(ch));
    assert cover[0..] == cover;
  }

  /** Stripping undoes a write exactly when the text held nothing else the strip removes. */
  lemma StripUndoesWrite(g: Geometry, c: Carrier, cover: string, bits: seq<bool>)
    requires CheckWritable(c, cover).Ok?
    ensures Strip(c, Place(g, cover, SequenceFrom(c, bits, 0))) == cover <==>
            forall i :: 0 <= i < |cover| ==> cover[i] !in c.alsoStrips
  {
    var p := ch => !c.Strips(ch);
    StripForgets(g, c, cover, bits);
    KeepWholeOnlyIf(cover, p);
    if forall i :: 0 <= i < |cover| ==> cover[i] !in c.alsoStrips {
      KeepAll(cover, p);
    }
  }

  /** Invisible insertions leave the visible skeleton, and so every position count, untouched. */
  lemma PositionsUnmoved(g: Geometry, c: Carrier, other: Carrier, cover: string, bits: seq<bool>)
    requires IsFormatControl(other.zero) && IsFormatControl(other.one)
    requires other.delimiter.Some? ==> IsFormatControl(other.delimiter.value)
    ensures Positions(g, c, Place(g, cover, SequenceFrom(other, bits, 0))) == Positions(g, c, cover)
  {
    SequenceInChannel(other, bits, 0);
    PlacedHidden(g, cover, 0, SequenceFrom(other, bits, 0), ch => !IsFormatControl(ch));
    assert cover[0..] == cover;
  }

  /** Placing adds no character outside the cover and the carrier's alphabet. */
  lemma PlacedFreeOf(g: Geometry, c: Carrier, other: Carrier, cover: string, bits: seq<bool>)
    requires CheckWritable(c, cover).Ok? && forall ch :: c.InChannel(ch) ==> !other.InChannel(ch)
    ensures CheckWritable(c, Place(g, cover, SequenceFrom(other, bits, 0))).Ok?
  {
    var text := Place(g, cover, SequenceFrom(other, bits, 0));
    var foreign := ch => c.InChannel(ch);
    SequenceInChannel(other, bits, 0);
    PlacedHidden(g, cover, 0, SequenceFrom(other, bits, 0), foreign);
    assert cover[0..] == cover;
    KeepNone(cover, foreign);
    EmptyKeep(text, foreign);
  }

  lemma {:induction false} EmptyKeep(s: string, p: char -> bool)
    requires Keep(s, p) == ""
    ensures forall i :: 0 <= i < |s| ==> !p(s[i])
  {
    if s == "" {
    } else {
      EmptyKeep(s[1..], p);
      assert forall i :: 1 <= i < |s| ==> s[i] == s[1..][i - 1];
    }
  }
  // ─── Bit by bit ───

  /** Where the `k`-th bit behind bit `i` stands: a delimiter takes a place before every eighth bit but the first. */
  function BitPlace(c: Carrier, i: nat, k: nat): int {
    k + if c.delimiter.None? then 0 else (i + k) / 8 - (if i == 0 then 0 else (i - 1) / 8)
  }

  lemma {:induction false} BitStands(c: Carrier, bits: seq<bool>, i: nat, k: nat)
    requires k < |bits|
    ensures 0 <= BitPlace(c, i, k) < |SequenceFrom(c, bits, i)|
    ensures SequenceFrom(c, bits, i)[BitPlace(c, i, k)] == if bits[k] then c.one else c.zero
    ensures c.delimiter.Some? && i + k > 0 && (i + k) % 8 == 0 ==>
              BitPlace(c, i, k) > 0 && SequenceFrom(c, bits, i)[BitPlace(c, i, k) - 1] == c.delimiter.value
    decreases k
  {
    if k == 0 {
    } else {
      BitStands(c, bits[1..], i + 1, k - 1);
      var front := (if c.delimiter.Some? && i > 0 && i % 8 == 0 then [c.delimiter.value] else "") +
                   [BitChar(c, bits[0])];
      assert SequenceFrom(c, bits, i) == front + SequenceFrom(c, bits[1..], i + 1);
      assert BitPlace(c, i, k) == |front| + BitPlace(c, i + 1, k - 1);
    }
  }

  /**
   What is written for a payload, character by character: bit `i` of byte `j`, the highest first, and,
     for a carrier with
   a delimiter, one before every byte but the first.
   */
  lemma Spelled(c: Carrier, payload: seq<byte>, j: nat, i: nat)
    requires j < |payload| && i < 8
    ensures var s := SequenceFrom(c, BytesToBits(payload), 0);
            var at := if c.delimiter.Some? then 9 * j + i else 8 * j + i;
            at < |s| && s[at] == (if BitSet(payload[j], i) then c.one else c.zero) &&
            (c.delimiter.Some? && j > 0 ==> s[9 * j - 1] == c.delimiter.value)
  {
    hide SequenceFrom, BytesToBits, Bits, BitSet;
    BitsOfByte(payload, j, i);
    ByteBit(payload[j], i);
    BitStands(c, BytesToBits(payload), 0, 8 * j + i);
    BitStands(c, BytesToBits(payload), 0, 8 * j);
  }
  lemma LetterSpelled(c: Carrier)
    ensures SequenceFrom(c, BytesToBits([0x41]), 0) ==
            [c.zero, c.one, c.zero, c.zero, c.zero, c.zero, c.zero, c.one]
  {
    hide SequenceFrom, BytesToBits, BitSet;
    var s := SequenceFrom(c, BytesToBits([0x41]), 0);
    var expected := [c.zero, c.one, c.zero, c.zero, c.zero, c.zero, c.zero, c.one];
    SequenceLength(c, BytesToBits([0x41]), 0);
    forall i: nat | i < 8
      ensures s[i] == expected[i]
    {
      Spelled(c, [0x41], 0, i);
      LetterBits(i);
    }
  }

  lemma LetterBits(i: nat)
    requires i < 8
    ensures BitSet(0x41, i) <==> i == 1 || i == 7
  {
  }

  /** The letter A, as the three carriers write it. */
  lemma LetterWritten()
    ensures SequenceFrom(ZERO_WIDTH, BytesToBits([0x41]), 0) ==
            ['\U{200B}', '\U{200C}', '\U{200B}', '\U{200B}', '\U{200B}', '\U{200B}', '\U{200B}', '\U{200C}']
    ensures SequenceFrom(WHITESPACE_VAR, BytesToBits([0x41]), 0) ==
            ['\U{2060}', '\U{FEFF}', '\U{2060}', '\U{2060}', '\U{2060}', '\U{2060}', '\U{2060}', '\U{FEFF}']
    ensures SequenceFrom(BIDI, BytesToBits([0x41]), 0) ==
            ['\U{200E}', '\U{200F}', '\U{200E}', '\U{200E}', '\U{200E}', '\U{200E}', '\U{200E}', '\U{200F}']
  {
    hide SequenceFrom, BytesToBits;
    LetterSpelled(ZERO_WIDTH);
    LetterSpelled(WHITESPACE_VAR);
    LetterSpelled(BIDI);
  }

  /** The code points of the format controls that no position is counted beside. */
  const FORMAT_CONTROLS: set<int> := {
    0xAD, 0x61C, 0x200B, 0x200C, 0x200D, 0x200E, 0x200F, 0x202A, 0x202B, 0x202C, 0x202D, 0x202E, 0x2060, 0x2061, 0x2062,
    0x2063, 0x2064, 0x2066, 0x2067, 0x2068, 0x2069, 0xFEFF}

  lemma ControlIs(ch: char)
    ensures IsFormatControl(ch) <==> ch as int in FORMAT_CONTROLS
  {
  }

  /** The skeleton is the text without these code points, everything else in order: character by character. */
  lemma SkeletonIs(ch: char, text: string)
    ensures Skeleton("") == ""
    ensures Skeleton([ch] + text) == (if ch as int in FORMAT_CONTROLS then "" else [ch]) + Skeleton(text)
  {
    hide IsFormatControl, FORMAT_CONTROLS;
    ControlIs(ch);
    KeepCons(ch, text, c => !IsFormatControl(c));
  }
}
