/** Repair of text whose UTF-8 bytes were read as Windows-1252. */
module Mojibake {
  import opened Results
  import opened Bytes
  import Utf8

  /** The five bytes Windows-1252 leaves undefined. */
  predicate Undefined(b: byte) {
    b == 0x81 || b == 0x8D || b == 0x8F || b == 0x90 || b == 0x9D
  }

  function Cp1252ToChar(b: byte): (c: char)
    ensures c as int < 0x80 <==> b < 0x80
    ensures b < 0x80 ==> c as int == b
  {
    match b
    case 0x80 => '\U{20AC}' case 0x82 => '\U{201A}' case 0x83 => '\U{0192}' case 0x84 => '\U{201E}'
    case 0x85 => '\U{2026}' case 0x86 => '\U{2020}' case 0x87 => '\U{2021}' case 0x88 => '\U{02C6}'
    case 0x89 => '\U{2030}' case 0x8A => '\U{0160}' case 0x8B => '\U{2039}' case 0x8C => '\U{0152}'
    case 0x8E => '\U{017D}' case 0x91 => '\U{2018}' case 0x92 => '\U{2019}' case 0x93 => '\U{201C}'
    case 0x94 => '\U{201D}' case 0x95 => '\U{2022}' case 0x96 => '\U{2013}' case 0x97 => '\U{2014}'
    case 0x98 => '\U{02DC}' case 0x99 => '\U{2122}' case 0x9A => '\U{0161}' case 0x9B => '\U{203A}'
    case 0x9C => '\U{0153}' case 0x9E => '\U{017E}' case 0x9F => '\U{0178}'
    case _ => b as char
  }

  function CharToCp1252(c: char): (r: Option<byte>)
    ensures c as int >= 0x80 && r.Some? ==> r.value >= 0x80
  {
    match c as int
    case 0x20AC => Some(0x80) case 0x201A => Some(0x82) case 0x0192 => Some(0x83) case 0x201E => Some(0x84)
    case 0x2026 => Some(0x85) case 0x2020 => Some(0x86) case 0x2021 => Some(0x87) case 0x02C6 => Some(0x88)
    case 0x2030 => Some(0x89) case 0x0160 => Some(0x8A) case 0x2039 => Some(0x8B) case 0x0152 => Some(0x8C)
    case 0x017D => Some(0x8E) case 0x2018 => Some(0x91) case 0x2019 => Some(0x92) case 0x201C => Some(0x93)
    case 0x201D => Some(0x94) case 0x2022 => Some(0x95) case 0x2013 => Some(0x96) case 0x2014 => Some(0x97)
    case 0x02DC => Some(0x98) case 0x2122 => Some(0x99) case 0x0161 => Some(0x9A) case 0x203A => Some(0x9B)
    case 0x0153 => Some(0x9C) case 0x017E => Some(0x9E) case 0x0178 => Some(0x9F)
    case n => if n < 0x80 || 0xA0 <= n < 0x100 then Some(n) else None
  }

  /** The two tables are inverse exactly on the defined bytes. */
  lemma TablesInvert(b: byte)
    ensures CharToCp1252(Cp1252ToChar(b)) == if Undefined(b) then None else Some(b)
  {
  }

  /** Windows-1252 between 0x80 and 0x9F, byte by byte; the five it leaves undefined stand for themselves. */
  const CODE_POINTS: seq<int> := [
    0x20AC, 0x0081, 0x201A, 0x0192, 0x201E, 0x2026, 0x2020, 0x2021,
    0x02C6, 0x2030, 0x0160, 0x2039, 0x0152, 0x008D, 0x017D, 0x008F,
    0x0090, 0x2018, 0x2019, 0x201C, 0x201D, 0x2022, 0x2013, 0x2014,
    0x02DC, 0x2122, 0x0161, 0x203A, 0x0153, 0x009D, 0x017E, 0x0178]

  function CodePoint(b: byte): int {
    if 0x80 <= b <= 0x9F then CODE_POINTS[b - 0x80] else b as int
  }

  lemma PointOf(b: byte)
    ensures Cp1252ToChar(b) as int == CodePoint(b)
  {
  }

  predicate High(c: char) {
    c as int > 0x7F
  }

  predicate IsLead(c: char) {
    c as int in {0xC2, 0xC3, 0xCE, 0xCF, 0xE2}
  }

  predicate IsContinuation(c: char) {
    0x80 <= c as int <= 0xBF ||
    c as int in {0x20AC, 0x201A, 0x0192, 0x201E, 0x2026, 0x2020, 0x2021, 0x02C6, 0x2030, 0x0160, 0x2039, 0x0152,
                 0x2018, 0x2019, 0x201C, 0x201D, 0x2022, 0x2013, 0x2014, 0x2122, 0x0161, 0x203A, 0x0153}
  }

  /** Adjacent pairs that look like a lead byte and a continuation byte. */
  function Score(s: string): nat {
    if |s| < 2 then 0 else (if IsLead(s[0]) && IsContinuation(s[1]) then 1 else 0) + Score(s[1..])
  }

  function AllBytes(run: string): (r: Option<seq<byte>>)
    ensures r.Some? ==> |r.value| == |run|
  {
    if run == "" then Some([])
    else
      var rest := AllBytes(run[1..]);
      if CharToCp1252(run[0]).None? || rest.None? then None
      else Some([CharToCp1252(run[0]).value] + rest.value)
  }

  /** A run of high characters, re-read as UTF-8 when that gives fewer characters. */
  function FixRun(run: string): (r: string)
    ensures |r| <= |run|
  {
    var bytes := AllBytes(run);
    if bytes.None? then run
    else
      var dec := Utf8.Decode(bytes.value);
      if dec.Some? && |dec.value| < |run| then dec.value else run
  }

  /** Length of the maximal run of high characters at the front. */
  function HighPrefix(s: string): (n: nat)
    ensures n <= |s|
    ensures forall i :: 0 <= i < n ==> High(s[i])
    ensures n < |s| ==> !High(s[n])
  {
    if s == "" || !High(s[0]) then 0 else 1 + HighPrefix(s[1..])
  }

  /** The repair, run by run. */
  function Repair(s: string): string
    decreases |s|
  {
    if s == "" then ""
    else if !High(s[0]) then [s[0]] + Repair(s[1..])
    else
      var n := HighPrefix(s);
      FixRun(s[..n]) + Repair(s[n..])
  }

  function Fix(s: string): string {
    if Score(s) == 0 then s else Repair(s)
  }

  // ─── The loops ───

  method MojibakeScore(s: string) returns (n: nat)
    ensures n == Score(s)
  {
    n := 0;
    var i := 0;
    while i + 1 < |s|
      invariant 0 <= i <= |s|
      invariant Score(s) == n + Score(s[i..])
    {
      assert s[i..][1..] == s[i + 1..];
      if IsLead(s[i]) && IsContinuation(s[i + 1]) {
        n := n + 1;
      }
      i := i + 1;
    }
  }

  lemma {:induction false} AllBytesConcat(a: string, b: string)
    ensures AllBytes(a + b) ==
      if AllBytes(a).Some? && AllBytes(b).Some? then Some(AllBytes(a).value + AllBytes(b).value) else None
  {
    if a == "" {
      assert a + b == b;
      assert AllBytes(b).Some? ==> [] + AllBytes(b).value == AllBytes(b).value;
    } else {
      assert (a + b)[1..] == a[1..] + b;
      AllBytesConcat(a[1..], b);
      if AllBytes(a).Some? && AllBytes(b).Some? {
        assert AllBytes(a).value + AllBytes(b).value
            == [CharToCp1252(a[0]).value] + (AllBytes(a[1..]).value + AllBytes(b).value);
      }
    }
  }

  lemma AllBytesOne(c: char)
    ensures AllBytes([c]) == if CharToCp1252(c).None? then None else Some([CharToCp1252(c).value])
  {
    var one := [c];
    assert one[1..] == "" && AllBytes(one[1..]) == Some([]);
    if CharToCp1252(c).Some? {
      assert [CharToCp1252(c).value] + [] == [CharToCp1252(c).value];
    }
  }

  method RunBytes(run: string) returns (r: Option<seq<byte>>)
    ensures r == AllBytes(run)
  {
    var bytes: seq<byte> := [];
    for i := 0 to |run|
      invariant AllBytes(run[..i]) == Some(bytes)
    {
      assert run[..i + 1] == run[..i] + [run[i]];
      AllBytesConcat(run[..i], [run[i]]);
      AllBytesOne(run[i]);
      var b := CharToCp1252(run[i]);
      if b.None? {
        assert run == run[..i + 1] + run[i + 1..];
        AllBytesConcat(run[..i + 1], run[i + 1..]);
        return None;
      }
      bytes := bytes + [b.value];
    }
    assert run[..|run|] == run;
    r := Some(bytes);
  }

  method RunEnd(s: string, start: nat) returns (i: nat)
    requires start <= |s|
    ensures start <= i <= |s| && i - start == HighPrefix(s[start..])
  {
    i := start;
    while i < |s| && High(s[i])
      invariant start <= i <= |s|
      invariant HighPrefix(s[start..]) == i - start + HighPrefix(s[i..])
    {
      assert s[i..][1..] == s[i + 1..];
      i := i + 1;
    }
  }

  method RepairRun(run: string) returns (fixed: string)
    ensures fixed == FixRun(run)
  {
    fixed := run;
    var bytes := RunBytes(run);
    if bytes.Some? {
      var dec := Utf8.Decode(bytes.value);
      if dec.Some? && |dec.value| < |run| {
        fixed := dec.value;
      }
    }
  }

  lemma RepairUnrolls(s: string, i: nat)
    requires i < |s|
    ensures !High(s[i]) ==> Repair(s[i..]) == [s[i]] + Repair(s[i + 1..])
    ensures High(s[i]) ==> var n := HighPrefix(s[i..]);
                           n > 0 && Repair(s[i..]) == FixRun(s[i..i + n]) + Repair(s[i + n..])
  {
    hide FixRun;
    var t := s[i..];
    assert t[1..] == s[i + 1..];
    var n := HighPrefix(t);
    assert t[..n] == s[i..i + n] && t[n..] == s[i + n..];
  }

  /** The repair loop: copy ASCII, collect each maximal run, re-read it or keep it. */
  method FixMojibake(s: string) returns (out: string)
    ensures out == Fix(s)
  {
    var score := MojibakeScore(s);
    if score == 0 {
      return s;
    }
    out := RepairRuns(s);
  }

  lemma Regroup(a: string, b: string, c: string)
    ensures a + (b + c) == (a + b) + c
  {
  }

  method RepairRuns(s: string) returns (out: string)
    ensures out == Repair(s)
  {
    out := "";
    var i := 0;
    ghost var goal := Repair(s);
    assert s[0..] == s;
    while i < |s|
      invariant 0 <= i <= |s|
      invariant goal == out + Repair(s[i..])
    {
      RepairUnrolls(s, i);
      if !High(s[i]) {
        Regroup(out, [s[i]], Repair(s[i + 1..]));
        out := out + [s[i]];
        i := i + 1;
      } else {
        var start := i;
        i := RunEnd(s, start);
        var fixed := RepairRun(s[start..i]);
        Regroup(out, fixed, Repair(s[i..]));
        out := out + fixed;
      }
    }
  }

  // ─── When a text is repaired at all ───

  /**
   A lead byte's character, and behind it a character a continuation byte may stand for: the byte's own number, or its
   character in Windows-1252, of which four are left out.
   */
  ghost predicate PairAt(s: string, i: nat)
    requires i + 1 < |s|
  {
    s[i] as int in {0xC2, 0xC3, 0xCE, 0xCF, 0xE2} &&
    (0x80 <= s[i + 1] as int <= 0xBF ||
     exists b: byte :: 0x80 <= b <= 0x9F && b !in {0x8E, 0x98, 0x9E, 0x9F} && CodePoint(b) == s[i + 1] as int)
  }

  lemma ContinuationIs(c: char)
    ensures IsContinuation(c) && c as int > 0xBF ==>
            var b := CharToCp1252(c);
            b.Some? && 0x80 <= b.value <= 0x9F && b.value !in {0x8E, 0x98, 0x9E, 0x9F} && Cp1252ToChar(b.value) == c
  {
  }

  lemma ContinuationOf(b: byte)
    requires 0x80 <= b <= 0x9F && b !in {0x8E, 0x98, 0x9E, 0x9F}
    ensures IsContinuation(Cp1252ToChar(b))
  {
  }

  lemma PairScores(s: string, i: nat)
    requires i + 1 < |s|
    ensures PairAt(s, i) <==> IsLead(s[i]) && IsContinuation(s[i + 1])
  {
    hide Cp1252ToChar, CharToCp1252, CodePoint, IsContinuation;
    var c := s[i + 1];
    LowContinues(c);
    ContinuationIs(c);
    if c as int > 0xBF && IsContinuation(c) {
      PointOf(CharToCp1252(c).value);
    }
    if b: byte :| 0x80 <= b <= 0x9F && b !in {0x8E, 0x98, 0x9E, 0x9F} && CodePoint(b) == c as int {
      PointOf(b);
      ContinuationOf(b);
    }
  }

  lemma LowContinues(c: char)
    ensures 0x80 <= c as int <= 0xBF ==> IsContinuation(c)
    ensures c as int < 0x80 ==> !IsContinuation(c)
  {
  }

  /** A text is looked at, run by run, exactly when such a pair stands in it; otherwise it comes back as it was. */
  lemma {:induction false} ScoresWhenPaired(s: string)
    ensures Score(s) > 0 <==> exists i: nat :: i + 1 < |s| && PairAt(s, i)
    ensures (forall i: nat :: i + 1 < |s| ==> !PairAt(s, i)) ==> Fix(s) == s
  {
    hide IsLead, IsContinuation, Repair;
    if |s| < 2 {
    } else {
      ScoresWhenPaired(s[1..]);
      PairScores(s, 0);
      forall i: nat | i + 2 < |s|
        ensures PairAt(s, i + 1) <==> PairAt(s[1..], i)
      {
        PairScores(s, i + 1);
        PairScores(s[1..], i);
      }
      if i: nat :| i + 1 < |s| && PairAt(s, i) {
        assert i > 0 ==> PairAt(s[1..], i - 1);
      }
    }
  }

  // ─── Repair undoes one step of corruption ───

  /** UTF-8 bytes read one by one as Windows-1252. */
  function ReadAs1252(bytes: seq<byte>): (s: string)
    ensures |s| == |bytes|
  {
    if bytes == [] then "" else [Cp1252ToChar(bytes[0])] + ReadAs1252(bytes[1..])
  }

  function Garble(text: string): string {
    ReadAs1252(Utf8.Encode(text))
  }

  predicate AnyUndefined(bytes: seq<byte>) {
    exists i :: 0 <= i < |bytes| && Undefined(bytes[i])
  }

  lemma {:induction false} GarbleConcat(a: seq<byte>, b: seq<byte>)
    ensures ReadAs1252(a + b) == ReadAs1252(a) + ReadAs1252(b)
  {
    if a == [] {
      assert a + b == b;
    } else {
      assert (a + b)[1..] == a[1..] + b;
      GarbleConcat(a[1..], b);
    }
  }

  /** Reading back the bytes of garbled text works exactly when none of them is undefined. */
  lemma {:induction false} BytesOfGarbled(bytes: seq<byte>)
    ensures AllBytes(ReadAs1252(bytes)) == if AnyUndefined(bytes) then None else Some(bytes)
  {
    if bytes == [] {
    } else {
      TablesInvert(bytes[0]);
      BytesOfGarbled(bytes[1..]);
      if AnyUndefined(bytes) {
        var i :| 0 <= i < |bytes| && Undefined(bytes[i]);
        assert i > 0 ==> Undefined(bytes[1..][i - 1]);
      } else {
        assert forall j :: 0 <= j < |bytes[1..]| ==> bytes[1..][j] == bytes[j + 1];
        assert bytes == [bytes[0]] + bytes[1..];
      }
    }
  }

  /** Text beyond ASCII takes at least two bytes a character, each of them high. */
  lemma {:induction false} HighTextBytes(a: string)
    requires forall i :: 0 <= i < |a| ==> High(a[i])
    ensures |Utf8.Encode(a)| >= 2 * |a|
    ensures forall i :: 0 <= i < |Utf8.Encode(a)| ==> Utf8.Encode(a)[i] >= 0x80
  {
    if a == "" {
    } else {
      HighTextBytes(a[1..]);
    }
  }

  lemma {:induction false} GarbledHigh(bytes: seq<byte>)
    requires forall i :: 0 <= i < |bytes| ==> bytes[i] >= 0x80
    ensures forall i :: 0 <= i < |bytes| ==> High(ReadAs1252(bytes)[i])
  {
    if bytes == [] {
    } else {
      GarbledHigh(bytes[1..]);
    }
  }

  lemma {:induction false} HighPrefixOf(a: string, b: string)
    requires (forall i :: 0 <= i < |a| ==> High(a[i])) && (b == "" || !High(b[0]))
    ensures HighPrefix(a + b) == |a|
  {
    if a == "" {
      assert a + b == b;
    } else {
      assert (a + b)[1..] == a[1..] + b;
      HighPrefixOf(a[1..], b);
    }
  }

  /** A garbled run comes back whole, or, when one of its bytes is undefined, stays longer than it was. */
  lemma FixGarbledRun(a: string)
    requires a != "" && forall i :: 0 <= i < |a| ==> High(a[i])
    ensures if AnyUndefined(Utf8.Encode(a)) then |FixRun(Garble(a))| > |a| else FixRun(Garble(a)) == a
  {
    BytesOfGarbled(Utf8.Encode(a));
    HighTextBytes(a);
    Utf8.DecodeEncode(a);
  }

  lemma AnyUndefinedConcat(a: seq<byte>, b: seq<byte>)
    ensures AnyUndefined(a + b) <==> AnyUndefined(a) || AnyUndefined(b)
  {
    if AnyUndefined(a) {
      var i :| 0 <= i < |a| && Undefined(a[i]);
      assert Undefined((a + b)[i]);
    }
    if AnyUndefined(b) {
      var i :| 0 <= i < |b| && Undefined(b[i]);
      assert Undefined((a + b)[|a| + i]);
    }
    if AnyUndefined(a + b) {
      var i :| 0 <= i < |a + b| && Undefined((a + b)[i]);
      assert i < |a| ==> Undefined(a[i]);
      assert i >= |a| ==> Undefined(b[i - |a|]);
    }
  }

  lemma GarbleHead(text: string)
    requires text != "" && !High(text[0])
    ensures Garble(text) == [text[0]] + Garble(text[1..])
    ensures AnyUndefined(Utf8.Encode(text)) <==> AnyUndefined(Utf8.Encode(text[1..]))
  {
    var first := Utf8.EncodeChar(text[0]);
    GarbleConcat(first, Utf8.Encode(text[1..]));
    AnyUndefinedConcat(first, Utf8.Encode(text[1..]));
    assert first[1..] == [];
    assert ReadAs1252(first) == [text[0]];
    assert !AnyUndefined(first);
  }

  /** Run by run, repairing garbled text gives it back unless a byte was undefined. */
  lemma {:induction false} RepairGarbled(text: string)
    ensures if AnyUndefined(Utf8.Encode(text)) then |Repair(Garble(text))| > |text| else Repair(Garble(text)) == text
    decreases |text|
  {
    if text == "" {
    } else if !High(text[0]) {
      GarbleHead(text);
      RepairGarbled(text[1..]);
      assert Garble(text)[1..] == Garble(text[1..]);
    } else {
      var n := HighPrefix(text);
      var a, b := text[..n], text[n..];
      assert text == a + b;
      Utf8.EncodeConcat(a, b);
      GarbleConcat(Utf8.Encode(a), Utf8.Encode(b));
      AnyUndefinedConcat(Utf8.Encode(a), Utf8.Encode(b));
      HighTextBytes(a);
      GarbledHigh(Utf8.Encode(a));
      if b != "" {
        GarbleHead(b);
      }
      HighPrefixOf(Garble(a), Garble(b));
      FixGarbledRun(a);
      RepairGarbled(b);
      assert Garble(text)[..|Garble(a)|] == Garble(a) && Garble(text)[|Garble(a)|..] == Garble(b);
    }
  }

  lemma {:induction false} GarbleGrows(text: string)
    ensures |Garble(text)| >= |text|
    ensures (forall i :: 0 <= i < |text| ==> !High(text[i])) ==> Garble(text) == text
    ensures (exists i :: 0 <= i < |text| && High(text[i])) ==> |Garble(text)| > |text|
  {
    if text == "" {
    } else {
      GarbleGrows(text[1..]);
      GarbleConcat(Utf8.EncodeChar(text[0]), Utf8.Encode(text[1..]));
      if !High(text[0]) {
        GarbleHead(text);
      }
      assert forall i :: 1 <= i < |text| ==> text[i] == text[1..][i - 1];
      assert forall i :: 0 <= i < |text[1..]| ==> text[1..][i] == text[i + 1];
    }
  }

  predicate Ascii(text: string) {
    forall i :: 0 <= i < |text| ==> !High(text[i])
  }

  /** A character whose UTF-8 bytes, read one by one as Windows-1252, look like corruption to the score. */
  predicate Marked(c: char) {
    var bytes := Utf8.EncodeChar(c);
    bytes[0] in {0xC2, 0xC3, 0xCE, 0xCF, 0xE2} && bytes[1] !in {0x8E, 0x98, 0x9E, 0x9F}
  }

  function CountMarked(text: string): (n: nat)
    ensures n > 0 <==> exists i :: 0 <= i < |text| && Marked(text[i])
  {
    if text == "" then 0
    else
      var behind := CountMarked(text[1..]);
      assert forall i :: 0 < i < |text| ==> text[i] == text[1..][i - 1];
      assert forall i :: 0 <= i < |text[1..]| ==> text[1..][i] == text[i + 1];
      (if Marked(text[0]) then 1 else 0) + behind
  }

  /** No pair reaches over a place that no lead stands before. */
  lemma {:induction false} ScoreAppend(a: string, b: string)
    requires a == "" || !IsLead(a[|a| - 1])
    ensures Score(a + b) == Score(a) + Score(b)
  {
    hide IsLead, IsContinuation;
    if a == "" {
      assert a + b == b;
    } else {
      assert (a + b)[1..] == a[1..] + b;
      ScoreAppend(a[1..], b);
      assert |a| > 1 ==> (a + b)[1] == a[1];
    }
  }

  /** The bytes of one character, read one by one. */
  lemma ScoreOfChar(c: char)
    ensures var s := ReadAs1252(Utf8.EncodeChar(c));
            !IsLead(s[|s| - 1]) && Score(s) == if Marked(c) then 1 else 0
  {
    hide IsContinuation, Cp1252ToChar;
    var bytes := Utf8.EncodeChar(c);
    var s := ReadAs1252(bytes);
    assert forall i :: 0 <= i < |bytes| ==> s[i] == Cp1252ToChar(bytes[i]) by {
      ReadEach(bytes);
    }
    forall b: byte
      ensures IsLead(Cp1252ToChar(b)) <==> b in {0xC2, 0xC3, 0xCE, 0xCF, 0xE2}
    {
      LeadBytes(b);
    }
    if |bytes| > 1 {
      ContinuationBytes(bytes[1]);
      NoLeadNoScore(s[1..]);
    }
  }

  lemma {:induction false} NoLeadNoScore(s: string)
    requires forall i :: 0 <= i < |s| ==> !IsLead(s[i])
    ensures Score(s) == 0
  {
    if |s| < 2 {
    } else {
      NoLeadNoScore(s[1..]);
    }
  }

  lemma {:induction false} ReadEach(bytes: seq<byte>)
    ensures forall i :: 0 <= i < |bytes| ==> ReadAs1252(bytes)[i] == Cp1252ToChar(bytes[i])
  {
    hide Cp1252ToChar;
    if bytes == [] {
    } else {
      ReadEach(bytes[1..]);
    }
  }

  /** Garbling reads every byte as its Windows-1252 character. */
  lemma ReadByCodePage(bytes: seq<byte>)
    ensures forall i :: 0 <= i < |bytes| ==> ReadAs1252(bytes)[i] as int == CodePoint(bytes[i])
  {
    hide Cp1252ToChar, CodePoint;
    ReadEach(bytes);
    forall i | 0 <= i < |bytes|
      ensures ReadAs1252(bytes)[i] as int == CodePoint(bytes[i])
    {
      PointOf(bytes[i]);
    }
  }

  lemma LeadBytes(b: byte)
    ensures IsLead(Cp1252ToChar(b)) <==> b in {0xC2, 0xC3, 0xCE, 0xCF, 0xE2}
  {
  }

  lemma ContinuationBytes(b: byte)
    requires Utf8.Continues(b)
    ensures IsContinuation(Cp1252ToChar(b)) <==> b !in {0x8E, 0x98, 0x9E, 0x9F}
  {
  }

  /** The score of garbled text counts the marked characters of the text it was. */
  lemma {:induction false} ScoreGarbled(text: string)
    ensures Score(Garble(text)) == CountMarked(text)
  {
    hide Score, ReadAs1252, Marked, Utf8.EncodeChar, IsLead;
    if text == "" {
      EmptyScore();
    } else {
      ScoreGarbled(text[1..]);
      var first, rest := Utf8.EncodeChar(text[0]), Utf8.Encode(text[1..]);
      GarbleConcat(first, rest);
      ScoreOfChar(text[0]);
      ScoreAppend(ReadAs1252(first), ReadAs1252(rest));
    }
  }

  lemma EmptyScore()
    ensures Score(Garble("")) == 0
  {
  }

  /** Exactly when the repair inverts one corruption step, over every text. */
  lemma RepairInvertsCorruption(text: string)
    ensures Fix(Garble(text)) == text <==>
            Ascii(text) ||
            ((exists i :: 0 <= i < |text| && Marked(text[i])) && !AnyUndefined(Utf8.Encode(text)))
  {
    hide Marked;
    GarbleGrows(text);
    RepairGarbled(text);
    ScoreGarbled(text);
    if Ascii(text) && Score(text) > 0 {
      AsciiScoresZero(text);
    }
  }

  /** One character's bytes, read one by one. */
  lemma GarbleOne(c: char, bytes: seq<byte>, garbled: string)
    requires Utf8.EncodeChar(c) == bytes && |garbled| == |bytes|
    requires forall i :: 0 <= i < |bytes| ==> Cp1252ToChar(bytes[i]) == garbled[i]
    ensures Utf8.Encode([c]) == bytes && Garble([c]) == garbled
  {
    hide Cp1252ToChar, Utf8.EncodeChar;
    assert [c][1..] == "" && Utf8.Encode([c]) == Utf8.EncodeChar(c) + [];
    ReadEach(bytes);
  }

  /** A sharp s has no undefined byte and is still not repaired: its garbled form scores nothing. */
  lemma SharpNotRepaired()
    ensures var text := ['\U{00DF}'];
            !AnyUndefined(Utf8.Encode(text)) && Garble(text) == ['\U{00C3}', '\U{0178}'] &&
            Fix(Garble(text)) == Garble(text)
  {
    hide Cp1252ToChar, Repair, Score;
    SharpBytes();
    GarbleOne('\U{00DF}', [0xC3, 0x9F], ['\U{00C3}', '\U{0178}']);
    assert ['\U{00DF}'][1..] == "" && !Marked('\U{00DF}');
    ScoreGarbled(['\U{00DF}']);
  }

  lemma SharpBytes()
    ensures Utf8.EncodeChar('\U{00DF}') == [0xC3, 0x9F]
    ensures Cp1252ToChar(0xC3) == '\U{00C3}' && Cp1252ToChar(0x9F) == '\U{0178}'
  {
  }

  /** The commonest corruption, a closing quote read as three characters, comes back as the quote. */
  lemma QuoteRepaired()
    ensures Fix(['\U{00E2}', '\U{20AC}', '\U{2122}']) == ['\U{2019}']
  {
    hide Cp1252ToChar, Repair, Score;
    var quote, garbled := ['\U{2019}'], ['\U{00E2}', '\U{20AC}', '\U{2122}'];
    QuoteBytes();
    GarbleOne('\U{2019}', [0xE2, 0x80, 0x99], garbled);
    assert Marked(quote[0]);
    RepairInvertsCorruption(quote);
  }

  lemma QuoteBytes()
    ensures Utf8.EncodeChar('\U{2019}') == [0xE2, 0x80, 0x99]
    ensures Cp1252ToChar(0xE2) == '\U{00E2}' && Cp1252ToChar(0x80) == '\U{20AC}' && Cp1252ToChar(0x99) == '\U{2122}'
  {
  }

  lemma {:induction false} AsciiScoresZero(text: string)
    requires Ascii(text)
    ensures Score(text) == 0
  {
    if |text| < 2 {
    } else {
      AsciiScoresZero(text[1..]);
    }
  }

  // ─── Does the repair remove markers? ───

  /** The maximal runs of high characters, in order. */
  function Runs(s: string): seq<string>
    decreases |s|
  {
    if s == "" then []
    else if !High(s[0]) then Runs(s[1..])
    else
      var n := HighPrefix(s);
      [s[..n]] + Runs(s[n..])
  }

  function Markers(runs: seq<string>): nat
    decreases runs
  {
    if runs == [] then 0 else Score(runs[0]) + Markers(runs[1..])
  }

  function FixedRuns(runs: seq<string>): seq<string>
    decreases runs
  {
    if runs == [] then [] else [FixRun(runs[0])] + FixedRuns(runs[1..])
  }

  /**
   The markers lost, less those gained, in the runs the repair replaces: a run that spells a text had one for each
   marked character of that text, and has the text's own afterwards.
   */
  function Lost(runs: seq<string>): int
    decreases runs
  {
    if runs == [] then 0
    else
      var spelled := FixRun(runs[0]);
      (if spelled == runs[0] then 0 else CountMarked(spelled) - Score(spelled)) + Lost(runs[1..])
  }

  lemma CharReadBack(c: char)
    requires CharToCp1252(c).Some?
    ensures Cp1252ToChar(CharToCp1252(c).value) == c
  {
  }

  lemma {:induction false} BytesReadBack(run: string)
    requires AllBytes(run).Some?
    ensures ReadAs1252(AllBytes(run).value) == run
  {
    hide CharToCp1252, Cp1252ToChar;
    if run == "" {
    } else {
      CharReadBack(run[0]);
      BytesReadBack(run[1..]);
      assert AllBytes(run).value[1..] == AllBytes(run[1..]).value;
    }
  }

  /** A run that is replaced is its replacement, garbled. */
  lemma ReplacedIsGarbled(run: string)
    requires FixRun(run) != run
    ensures run == Garble(FixRun(run)) && Score(run) == CountMarked(FixRun(run))
  {
    hide AllBytes, ReadAs1252, Score, CountMarked;
    BytesReadBack(run);
    Utf8.EncodeDecode(AllBytes(run).value);
    ScoreGarbled(FixRun(run));
  }

  lemma {:induction false} LostIsTheDifference(runs: seq<string>)
    ensures Markers(FixedRuns(runs)) == Markers(runs) - Lost(runs)
    decreases runs
  {
    hide FixRun, Score, CountMarked;
    if runs == [] {
    } else {
      LostIsTheDifference(runs[1..]);
      if FixRun(runs[0]) != runs[0] {
        ReplacedIsGarbled(runs[0]);
      }
      assert FixedRuns(runs)[1..] == FixedRuns(runs[1..]);
    }
  }

  /** A run before something that is no high character is scored by itself. */
  lemma {:induction false} ScoreOfRun(a: string, b: string)
    requires b == "" || !High(b[0])
    ensures Score(a + b) == Score(a) + Score(b)
  {
    if a == "" {
      assert a + b == b;
    } else {
      assert (a + b)[1..] == a[1..] + b;
      ScoreOfRun(a[1..], b);
      assert |a| > 1 ==> (a + b)[1] == a[1];
      assert |a| == 1 && b != "" ==> (a + b)[1] == b[0];
    }
  }

  /** The score adds up over the maximal runs. */
  lemma {:induction false} ScoreByRuns(s: string)
    ensures Score(s) == Markers(Runs(s))
    decreases |s|
  {
    if s == "" {
    } else if !High(s[0]) {
      ScoreByRuns(s[1..]);
      assert s == [s[0]] + s[1..];
      ScoreAppend([s[0]], s[1..]);
    } else {
      var n := HighPrefix(s);
      ScoreByRuns(s[n..]);
      ScoreOfRun(s[..n], s[n..]);
      assert s == s[..n] + s[n..];
      assert Runs(s)[1..] == Runs(s[n..]);
    }
  }

  lemma FixedRunNotEmpty(run: string)
    requires run != ""
    ensures FixRun(run) != ""
  {
  }

  lemma RepairStartsLow(s: string)
    requires s == "" || !High(s[0])
    ensures Repair(s) == "" || !High(Repair(s)[0])
  {
  }

  /** The runs of a repaired text are its runs, repaired. */
  lemma {:induction false} RunsRepaired(s: string)
    ensures Runs(Repair(s)) == FixedRuns(Runs(s))
    decreases |s|
  {
    hide FixRun;
    if s == "" {
    } else if !High(s[0]) {
      RunsRepaired(s[1..]);
      assert Repair(s)[1..] == Repair(s[1..]);
    } else {
      var n := HighPrefix(s);
      var fixed, rest := FixRun(s[..n]), Repair(s[n..]);
      RunsRepaired(s[n..]);
      FixRunStaysHigh(s[..n]);
      FixedRunNotEmpty(s[..n]);
      RepairStartsLow(s[n..]);
      HighPrefixOf(fixed, rest);
      assert (fixed + rest)[..|fixed|] == fixed && (fixed + rest)[|fixed|..] == rest;
      assert Runs(s)[1..] == Runs(s[n..]);
    }
  }

  /**
   The guard the documentation states and the code does not have: the score falls exactly when the texts that the
   replaced runs spell have, in all, more marked characters than markers.
   */
  lemma ScoreFallsExactly(s: string)
    ensures Score(Fix(s)) < Score(s) <==> Lost(Runs(s)) > 0
    ensures Score(s) > 0 ==> Score(Fix(s)) == Score(s) - Lost(Runs(s))
  {
    hide Score, Lost, FixedRuns, Markers, Runs, Repair;
    ScoreByRuns(s);
    ScoreByRuns(Repair(s));
    RunsRepaired(s);
    LostIsTheDifference(Runs(s));
  }

  lemma {:induction false} HighRunAlone(a: string)
    requires a != "" && forall i :: 0 <= i < |a| ==> High(a[i])
    ensures Runs(a) == [a] && Repair(a) == FixRun(a)
  {
    hide FixRun;
    HighPrefixOf(a, "");
    assert a + "" == a && a[..|a|] == a && a[|a|..] == "";
    assert FixRun(a) + "" == FixRun(a);
  }

  /** Two runs with a blank between them are repaired, and scored, one by one. */
  lemma TwoRuns(a: string, b: string)
    requires a != "" && b != "" && (forall i :: 0 <= i < |a| ==> High(a[i])) && forall i :: 0 <= i < |b| ==> High(b[i])
    ensures var s := a + ([' '] + b);
            Repair(s) == FixRun(a) + ([' '] + FixRun(b)) && Score(s) == Score(a) + Score(b)
  {
    hide FixRun;
    var rest := [' '] + b;
    assert rest[1..] == b;
    HighRunAlone(b);
    HighPrefixOf(a, rest);
    assert (a + rest)[..|a|] == a && (a + rest)[|a|..] == rest;
    ScoreOfRun(a, rest);
    ScoreAppend([' '], b);
  }

  /** A corrupted letter beside an ideograph, which Windows-1252 lacks: scored, and never repaired. */
  const STUCK := ['\U{00C3}', '\U{00A9}', '\U{4E2D}']

  lemma StuckRun()
    ensures FixRun(STUCK) == STUCK != "" && Score(STUCK) == 1 && forall i :: 0 <= i < |STUCK| ==> High(STUCK[i])
  {
    assert STUCK[1..][0] == '\U{00A9}' && STUCK[1..][1..][0] == '\U{4E2D}' && AllBytes(STUCK[1..][1..]) == None;
  }

  /** An ideograph, corrupted: three characters, none of them marked. */
  const IDEOGRAPH := ['\U{00E4}', '\U{00B8}', '\U{00AD}']

  lemma IdeographRun()
    ensures FixRun(IDEOGRAPH) == ['\U{4E2D}'] && Score(IDEOGRAPH) == 0 && Score(['\U{4E2D}']) == 0
    ensures |IDEOGRAPH| == 3 && forall i :: 0 <= i < |IDEOGRAPH| ==> High(IDEOGRAPH[i])
  {
    hide FixRun;
    assert Utf8.EncodeChar('\U{4E2D}') == [0xE4, 0xB8, 0xAD];
    GarbleOne('\U{4E2D}', [0xE4, 0xB8, 0xAD], IDEOGRAPH);
    FixGarbledRun(['\U{4E2D}']);
    NoLeadNoScore(IDEOGRAPH);
  }

  /** Two letters, corrupted, that score nothing and, repaired, look like a marker. */
  const LOOKALIKE := ['\U{00C3}', '\U{017D}', '\U{00C5}', '\U{2019}']

  lemma LookalikeRun()
    ensures FixRun(LOOKALIKE) == ['\U{00CE}', '\U{0152}'] && Score(LOOKALIKE) == 0
    ensures Score(['\U{00CE}', '\U{0152}']) == 1 && |LOOKALIKE| == 4
    ensures forall i :: 0 <= i < |LOOKALIKE| ==> High(LOOKALIKE[i])
  {
    hide FixRun, Cp1252ToChar, Garble;
    var first, second := ['\U{00CE}'], ['\U{0152}'];
    var text := first + second;
    LookalikeBytes();
    GarbleOne('\U{00CE}', [0xC3, 0x8E], ['\U{00C3}', '\U{017D}']);
    GarbleOne('\U{0152}', [0xC5, 0x92], ['\U{00C5}', '\U{2019}']);
    Utf8.EncodeConcat(first, second);
    GarbleBoth(first, second);
    assert Garble(text) == LOOKALIKE;
    FixGarbledRun(text);
    assert text[1..] == second;
    assert LOOKALIKE[1..][0] == '\U{017D}';
    NoLeadNoScore(LOOKALIKE[1..]);
  }

  lemma GarbleBoth(a: string, b: string)
    ensures Garble(a + b) == Garble(a) + Garble(b)
  {
    Utf8.EncodeConcat(a, b);
    GarbleConcat(Utf8.Encode(a), Utf8.Encode(b));
  }

  lemma LookalikeBytes()
    ensures Utf8.EncodeChar('\U{00CE}') == [0xC3, 0x8E] && Utf8.EncodeChar('\U{0152}') == [0xC5, 0x92]
    ensures Cp1252ToChar(0xC3) == '\U{00C3}' && Cp1252ToChar(0x8E) == '\U{017D}'
    ensures Cp1252ToChar(0xC5) == '\U{00C5}' && Cp1252ToChar(0x92) == '\U{2019}'
  {
  }

  /** A text the repair rewrites without its score falling. */
  lemma RewrittenAtSameScore()
    ensures var s := STUCK + ([' '] + IDEOGRAPH);
            Fix(s) == STUCK + ([' '] + ['\U{4E2D}']) != s && Score(s) == Score(Fix(s)) == 1
  {
    hide FixRun, Score, STUCK, IDEOGRAPH, Repair;
    StuckRun();
    IdeographRun();
    TwoRuns(STUCK, IDEOGRAPH);
    TwoRuns(STUCK, ['\U{4E2D}']);
  }

  /** A text whose score the repair raises. */
  lemma RewrittenAtHigherScore()
    ensures var s := STUCK + ([' '] + LOOKALIKE);
            Fix(s) == STUCK + ([' '] + ['\U{00CE}', '\U{0152}']) && Score(s) == 1 && Score(Fix(s)) == 2
  {
    hide FixRun, Score, STUCK, LOOKALIKE, Repair;
    StuckRun();
    LookalikeRun();
    TwoRuns(STUCK, LOOKALIKE);
    TwoRuns(STUCK, ['\U{00CE}', '\U{0152}']);
  }

  // ─── What the repair never does ───

  function KeepAscii(s: string): string {
    if s == "" then "" else (if High(s[0]) then "" else [s[0]]) + KeepAscii(s[1..])
  }

  lemma {:induction false} KeepAsciiConcat(a: string, b: string)
    ensures KeepAscii(a + b) == KeepAscii(a) + KeepAscii(b)
  {
    if a == "" {
      assert a + b == b;
    } else {
      assert (a + b)[1..] == a[1..] + b;
      KeepAsciiConcat(a[1..], b);
    }
  }

  lemma {:induction false} NoAscii(s: string)
    requires forall i :: 0 <= i < |s| ==> High(s[i])
    ensures KeepAscii(s) == ""
  {
    if s == "" {
    } else {
      NoAscii(s[1..]);
    }
  }

  lemma {:induction false} HighRunBytes(run: string)
    requires AllBytes(run).Some? && forall i :: 0 <= i < |run| ==> High(run[i])
    ensures forall i :: 0 <= i < |run| ==> AllBytes(run).value[i] >= 0x80
  {
    if run == "" {
    } else {
      HighRunBytes(run[1..]);
    }
  }

  lemma FixRunStaysHigh(run: string)
    requires forall i :: 0 <= i < |run| ==> High(run[i])
    ensures forall i :: 0 <= i < |FixRun(run)| ==> High(FixRun(run)[i])
  {
    if FixRun(run) != run {
      HighRunBytes(run);
      Utf8.HighBytesDecodeHigh(AllBytes(run).value);
    }
  }

  /** On any input the ASCII characters survive in order and the text never grows. */
  lemma {:induction false} RepairIsConservative(s: string)
    ensures KeepAscii(Repair(s)) == KeepAscii(s)
    ensures |Repair(s)| <= |s|
    decreases |s|
  {
    if s == "" {
    } else if !High(s[0]) {
      RepairIsConservative(s[1..]);
    } else {
      var n := HighPrefix(s);
      RepairIsConservative(s[n..]);
      FixRunStaysHigh(s[..n]);
      NoAscii(s[..n]);
      NoAscii(FixRun(s[..n]));
      KeepAsciiConcat(s[..n], s[n..]);
      KeepAsciiConcat(FixRun(s[..n]), Repair(s[n..]));
      assert s == s[..n] + s[n..];
    }
  }

  lemma FixIsConservative(s: string)
    ensures KeepAscii(Fix(s)) == KeepAscii(s) && |Fix(s)| <= |s|
  {
    RepairIsConservative(s);
  }
}
