/** SVG metadata: a payload element as the root's first child, read back, and every metadata element stripped. */
module Svg {
  import opened Results
  import opened Bytes
  import opened Search
  import Utf8
  import Base64

  // Names longer than a dozen characters are joined from pieces: the prover unfolds a literal character by character.
  const HOST := "https://" + "hopenmind" + ".com/"
  const NS_URI := HOST + "stegano" + "hero/ns#"

  /** The opening tag with its namespace declaration, without its angle brackets. */
  const NAME := "metadata " + ("xmlns:sh=" + ("\"" + NS_URI + "\""))
  const TAG := "sh:payload"
  const CDATA := "![CDATA["
  const HEADER := "<" + NAME + ">"
  const OPEN := "<" + TAG + "><" + CDATA
  const CLOSE := "]]></" + TAG + ">"
  const END := "</metadata>"

  const SVG_TAG := "<svg"
  const METADATA_TAG := "<metadata"

  function AsText(s: seq<byte>): (t: string)
    requires forall i :: 0 <= i < |s| ==> s[i] < 128
    ensures |t| == |s| && forall i :: 0 <= i < |s| ==> t[i] as int == s[i]
  {
    seq(|s|, i requires 0 <= i < |s| => s[i] as char)
  }

  function Encoded(payload: seq<byte>): string {
    Base64.StaysInAlphabet(payload);
    AsText(Base64.Encode(payload))
  }

  /** Where the root's opening tag ends. */
  function RootEnd(svg: string): (r: Option<nat>)
    ensures r.Some? ==> r.value <= |svg|
  {
    var open := FindTag(svg, SVG_TAG, 0);
    if open.None? then None
    else
      var gt := FindFrom(svg, ">", open.value);
      if gt.None? then None else Some(gt.value + 1)
  }

  predicate SelfClosing(svg: string, end: nat) {
    2 <= end <= |svg| && svg[end - 2..end] == "/>"
  }

  function Element(payload: seq<byte>): string {
    HEADER + OPEN + Encoded(payload) + CLOSE + END
  }

  /** Inserts the element as the root's first child; a root with no body is refused. */
  function EmbedText(svg: string, payload: seq<byte>): Result<string> {
    var end := RootEnd(svg);
    if end.None? then Err(EncodingFailed("svg"))
    else if SelfClosing(svg, end.value) then Err(EncodingFailed("svg"))
    else Ok(svg[..end.value] + Element(payload) + svg[end.value..])
  }

  /** The text between the payload markers. */
  function Extract(svg: string): Option<string> {
    var open := FindFrom(svg, OPEN, 0);
    if open.None? then None
    else
      var start := open.value + |OPEN|;
      var close := FindFrom(svg, CLOSE, start);
      if close.None? then None else Some(svg[start..close.value])
  }

  function RecoverText(svg: string): Result<Option<seq<byte>>> {
    var text := Extract(svg);
    if text.None? then Ok(None)
    else
      var payload := Base64.Decode(Utf8.Encode(text.value));
      if payload.None? then Err(DecodingFailed("svg")) else Ok(Some(payload.value))
  }

  /** Drops every metadata element: the tag alone if it closes itself, else through the next closing tag. */
  function StripText(svg: string): string
    decreases |svg|
  {
    var start := FindTag(svg, METADATA_TAG, 0);
    if start.None? then svg
    else
      var gt := FindFrom(svg, ">", start.value);
      if gt.None? then svg
      else svg[..start.value] + StripText(svg[ElementEnd(svg, gt.value + 1)..])
  }

  /** Where the element whose opening tag ends at `tagEnd` ends. */
  function ElementEnd(svg: string, tagEnd: nat): (end: nat)
    requires tagEnd <= |svg|
    ensures tagEnd <= end <= |svg|
  {
    if SelfClosing(svg, tagEnd) then tagEnd
    else
      var close := FindFrom(Lower(svg), END, tagEnd);
      if close.None? then |svg| else close.value + |END|
  }

  // ─── On bytes ───

  function Embed(svg: seq<byte>, payload: seq<byte>): Result<seq<byte>> {
    var text := Utf8.Decode(svg);
    if text.None? then Err(EncodingFailed("svg"))
    else
      var out :- EmbedText(text.value, payload);
      Ok(Utf8.Encode(out))
  }

  function Recover(svg: seq<byte>): Result<Option<seq<byte>>> {
    var text := Utf8.Decode(svg);
    if text.None? then Err(DecodingFailed("svg")) else RecoverText(text.value)
  }

  function Strip(svg: seq<byte>): Result<seq<byte>> {
    var text := Utf8.Decode(svg);
    if text.None? then Err(EncodingFailed("svg")) else Ok(Utf8.Encode(StripText(text.value)))
  }

  // ─── The stripping loop ───

  /** One turn of the loop: what the next tag found in the rest of the text decides. */
  lemma StripTurn(svg: string, cursor: nat, search: nat, out: string)
    requires cursor <= search <= |svg|
    requires FindTag(svg[cursor..], METADATA_TAG, 0) == FindTag(svg[cursor..], METADATA_TAG, search - cursor)
    ensures var found := FindTag(svg, METADATA_TAG, search);
            out + StripText(svg[cursor..]) ==
            if found.None? then out + svg[cursor..]
            else
              var gt := FindFrom(svg, ">", found.value);
              if gt.None? then out + svg[cursor..]
              else out + svg[cursor..found.value] + StripText(svg[ElementEnd(svg, gt.value + 1)..])
    ensures var found := FindTag(svg, METADATA_TAG, search);
            found.Some? ==> cursor <= found.value <= |svg|
  {
    hide FindTag, FindFrom, StripText, ElementEnd, At, Lower;
    var before, rest := svg[..cursor], svg[cursor..];
    assert svg == before + rest;
    FindTagShift(before, rest, METADATA_TAG, search - cursor);
    StripUnfolds(rest);
    var found := FindTag(rest, METADATA_TAG, 0);
    if found.Some? {
      FindShift(before, rest, ">", found.value);
      var gt := FindFrom(rest, ">", found.value);
      if gt.Some? {
        TagOpens(rest, found.value);
        EndShift(before, rest, gt.value + 1);
        Rejoin(svg, cursor, found.value, ElementEnd(rest, gt.value + 1), out);
      }
    }
  }

  lemma Rejoin(svg: string, cursor: nat, k: nat, end: nat, out: string)
    requires cursor <= |svg| && k <= |svg[cursor..]| && end <= |svg[cursor..]|
    ensures out + (svg[cursor..][..k] + StripText(svg[cursor..][end..]))
         == out + svg[cursor..cursor + k] + StripText(svg[cursor + end..])
  {
    hide StripText;
    assert svg[cursor..][end..] == svg[cursor + end..] && svg[cursor..][..k] == svg[cursor..cursor + k];
  }

  /** A tag opens with an angle bracket, so its closing one comes later. */
  lemma TagOpens(svg: string, start: nat)
    requires At(Lower(svg), METADATA_TAG, start)
    ensures FindFrom(svg, ">", start).Some? ==> FindFrom(svg, ">", start).value > start
  {
    assert Lower(svg)[start] == METADATA_TAG[0];
    assert svg[start] != '>';
  }

  lemma StripUnfolds(svg: string)
    ensures var start := FindTag(svg, METADATA_TAG, 0);
            StripText(svg) ==
            if start.None? then svg
            else
              var gt := FindFrom(svg, ">", start.value);
              if gt.None? then svg
              else svg[..start.value] + StripText(svg[ElementEnd(svg, gt.value + 1)..])
  {
  }

  lemma EndShift(a: string, t: string, tagEnd: nat)
    requires 2 <= tagEnd <= |t|
    ensures ElementEnd(a + t, |a| + tagEnd) == |a| + ElementEnd(t, tagEnd)
  {
    hide FindFrom;
    assert (a + t)[|a| + tagEnd - 2..|a| + tagEnd] == t[tagEnd - 2..tagEnd];
    LowerConcat(a, t);
    FindShift(Lower(a), Lower(t), END, tagEnd);
  }

  method EndOfElement(svg: string, tagEnd: nat) returns (end: nat)
    requires tagEnd <= |svg|
    ensures end == ElementEnd(svg, tagEnd)
  {
    if SelfClosing(svg, tagEnd) {
      return tagEnd;
    }
    var close := FindFrom(Lower(svg), END, tagEnd);
    end := if close.Some? then close.value + |END| else |svg|;
  }

  method StripElements(svg: string) returns (out: string)
    ensures out == StripText(svg)
  {
    hide FindTag, FindFrom, StripText, At, ElementEnd, Lower, IsTagBoundary;
    var lower := Lower(svg);
    out := "";
    var cursor: nat, search: nat := 0, 0;
    ghost var goal := StripText(svg);
    assert svg[0..] == svg && out + goal == goal;
    while true
      invariant cursor <= search <= |svg| && goal == out + StripText(svg[cursor..])
      invariant FindTag(svg[cursor..], METADATA_TAG, 0) == FindTag(svg[cursor..], METADATA_TAG, search - cursor)
      decreases |svg| - search
    {
      StripTurn(svg, cursor, search, out);
      TagUnfolds(svg, METADATA_TAG, search);
      var found := FindFrom(lower, METADATA_TAG, search);
      if found.None? {
        break;
      }
      var start := found.value;
      var after := start + |METADATA_TAG|;
      if !IsTagBoundary(svg, after) {
        LookAlike(svg, cursor, search, after);
        search := after;
        continue;
      }
      var gt := FindFrom(svg, ">", start);
      if gt.None? {
        break;
      }
      var tagOpenEnd := gt.value + 1;
      out := out + svg[cursor..start];
      cursor := EndOfElement(svg, tagOpenEnd);
      search := cursor;
    }
    out := out + svg[cursor..];
  }

  lemma TagUnfolds(s: string, pat: string, from: nat)
    requires pat != ""
    ensures var k := FindFrom(Lower(s), pat, from);
            (k.Some? ==> from <= k.value && k.value + |pat| <= |s|) &&
            FindTag(s, pat, from) ==
            if k.None? then None else if IsTagBoundary(s, k.value + |pat|) then k else FindTag(s, pat, k.value + |pat|)
  {
  }

  /** Moving past a look-alike keeps the tag the loop is looking for. */
  lemma LookAlike(svg: string, cursor: nat, search: nat, after: nat)
    requires cursor <= search <= after <= |svg|
    requires FindTag(svg[cursor..], METADATA_TAG, 0) == FindTag(svg[cursor..], METADATA_TAG, search - cursor)
    requires FindTag(svg, METADATA_TAG, search) == FindTag(svg, METADATA_TAG, after)
    ensures FindTag(svg[cursor..], METADATA_TAG, 0) == FindTag(svg[cursor..], METADATA_TAG, after - cursor)
  {
    hide FindTag;
    var before, rest := svg[..cursor], svg[cursor..];
    assert svg == before + rest;
    FindTagShift(before, rest, METADATA_TAG, search - cursor);
    FindTagShift(before, rest, METADATA_TAG, after - cursor);
  }

  // ─── The laws ───

  /** Neither angle bracket, nor a closing square one. */
  ghost predicate Bland(s: string) {
    '<' !in s && '>' !in s && ']' !in s
  }

  lemma BlandConcat(a: string, b: string)
    requires Bland(a) && Bland(b)
    ensures Bland(a + b)
  {
  }

  lemma BlandAddress()
    ensures Bland(NS_URI)
  {
    BlandConcat("https://", "hopenmind");
    BlandConcat("https://" + "hopenmind", ".com/");
    BlandConcat(HOST, "stegano");
    BlandConcat(HOST + "stegano", "hero/ns#");
  }

  lemma BlandName()
    ensures Bland(NAME) && |NAME| > 9 && NAME[..9] == "metadata " && NAME[|NAME| - 1] == '"'
  {
    hide NS_URI;
    BlandAddress();
    BlandConcat("\"", NS_URI);
    BlandConcat("\"" + NS_URI, "\"");
    BlandConcat("xmlns:sh=", "\"" + NS_URI + "\"");
    BlandConcat("metadata ", "xmlns:sh=" + ("\"" + NS_URI + "\""));
  }

  lemma MarkerNames()
    ensures Bland(TAG) && TAG[0] == 's' && |TAG| == 10
    ensures CDATA[0] == '!' && |CDATA| == 8 && '<' !in CDATA && '>' !in CDATA
  {
  }

  lemma EncodedBland(payload: seq<byte>)
    ensures Bland(Encoded(payload)) && Utf8.Encode(Encoded(payload)) == Base64.Encode(payload)
  {
    Base64.StaysInAlphabet(payload);
    AsciiEncodes(Base64.Encode(payload));
  }

  lemma {:induction false} AsciiEncodes(s: seq<byte>)
    requires forall i :: 0 <= i < |s| ==> s[i] < 128
    ensures Utf8.Encode(AsText(s)) == s
  {
    if s == [] {
    } else {
      AsciiEncodes(s[1..]);
      assert AsText(s)[1..] == AsText(s[1..]);
    }
  }

  /** A text that ends where its root's opening tag does, with no payload marker and no metadata tag in it. */
  ghost predicate Fresh(pre: string) {
    pre != "" && pre[|pre| - 1] == '>' && FindFrom(pre, OPEN, 0).None? && FindFrom(Lower(pre), METADATA_TAG, 0).None?
  }

  /** An SVG that can host the payload, fresh up to the end of its root's opening tag. */
  ghost predicate Hosts(svg: string) {
    RootEnd(svg).Some? && !SelfClosing(svg, RootEnd(svg).value) && Fresh(svg[..RootEnd(svg).value])
  }

  lemma MarkerChars(i: nat)
    requires i < 21
    ensures |OPEN| == 21 && OPEN[1] == 's' && OPEN[13] == '!' && OPEN[0] == '<'
    ensures (OPEN[i] == '>' <==> i == 11) && (OPEN[i] == '<' ==> i == 0 || i == 12)
  {
    MarkerNames();
    if 1 <= i < 11 {
      assert OPEN[i] == TAG[i - 1];
    } else if 13 <= i {
      assert OPEN[i] == CDATA[i - 13];
    }
  }

  lemma HeaderChars(h: nat)
    ensures |HEADER| == |NAME| + 2 && HEADER[1] == 'm' && HEADER[9] == ' ' && HEADER[|HEADER| - 2] == '"'
    ensures h < |HEADER| ==> (HEADER[h] == '<' <==> h == 0) && (HEADER[h] == '>' <==> h == |HEADER| - 1)
    ensures Lower(HEADER)[..9] == METADATA_TAG
  {
    hide NAME;
    BlandName();
    assert HEADER[1] == NAME[..9][0] && HEADER[9] == NAME[..9][8];
    if 0 < h < |HEADER| - 1 {
      assert HEADER[h] == NAME[h - 1];
    }
    var low := Lower(HEADER)[..9];
    assert forall i :: 1 <= i < 9 ==> low[i] == LowerChar(NAME[..9][i - 1]);
    assert low == METADATA_TAG;
  }

  /** The first payload marker is the one embedded. */
  lemma NoMarkerBefore(pre: string, rest: string, j: nat)
    requires Fresh(pre) && j < |pre| + |HEADER|
    ensures !At(pre + HEADER + rest, OPEN, j)
  {
    hide HEADER, OPEN, At, FindFrom, Lower;
    var out := pre + HEADER + rest;
    HeaderChars(0);
    MarkerChars(0);
    if j + 21 <= |pre| {
      FindIsFirst(pre, OPEN, 0);
      AtPrefix(out, pre, OPEN, j, |pre|);
    } else if j < |pre| {
      var i := |pre| - 1 - j;
      MarkerChars(i);
      AtChar(out, OPEN, j, i);
      AtChar(out, OPEN, j, 13);
      assert out[|pre| + 1] == HEADER[1] && out[j + i] == '>';
    } else {
      HeaderChars(j - |pre|);
      AtChar(out, OPEN, j, 0);
      AtChar(out, OPEN, j, 1);
      assert out[j] == HEADER[j - |pre|] && out[|pre| + 1] == HEADER[1];
    }
  }

  lemma FirstMarker(pre: string, rest: string)
    requires Fresh(pre)
    ensures FindFrom(pre + HEADER + (OPEN + rest), OPEN, 0) == Some(|pre + HEADER|)
  {
    hide HEADER, OPEN, At, FindFrom, Fresh;
    var out := pre + HEADER + (OPEN + rest);
    forall j: nat | j < |pre + HEADER|
      ensures !At(out, OPEN, j)
    {
      NoMarkerBefore(pre, OPEN + rest, j);
    }
    AtFront(pre + HEADER, OPEN, rest);
    FoundAt(out, OPEN, 0, |pre + HEADER|);
  }

  /** The first closing marker after data without a closing bracket is the one right after it. */
  lemma FirstClose(before: string, data: string, rest: string)
    requires ']' !in data
    ensures FindFrom(before + data + (CLOSE + rest), CLOSE, |before|) == Some(|before + data|)
  {
    hide FindFrom;
    var s := before + data + (CLOSE + rest);
    forall j: nat | |before| <= j < |before + data|
      ensures !At(s, CLOSE, j)
    {
      assert s[j] == data[j - |before|];
      AtChar(s, CLOSE, j, 0);
    }
    AtFront(before + data, CLOSE, rest);
    FoundAt(s, CLOSE, |before|, |before + data|);
  }

  /** What was embedded is extracted. */
  lemma ExtractAfterEmbed(pre: string, post: string, payload: seq<byte>)
    requires Fresh(pre)
    ensures Extract(pre + Element(payload) + post) == Some(Encoded(payload))
  {
    hide HEADER, OPEN, CLOSE, FindFrom, Fresh, At, Encoded;
    var data, tail := Encoded(payload), END + post;
    EncodedBland(payload);
    Regroup(pre, HEADER, OPEN, data, CLOSE, END, post);
    FirstMarker(pre, data + (CLOSE + tail));
    var before := pre + HEADER + OPEN;
    FirstClose(before, data, tail);
    Between(before, data, CLOSE + tail);
  }

  lemma Regroup(a: string, b: string, c: string, d: string, e: string, f: string, g: string)
    ensures a + (b + c + d + e + f) + g == a + b + (c + (d + (e + (f + g))))
    ensures a + (b + c + d + e + f) + g == a + b + c + d + (e + (f + g))
  {
    assert (e + f) + g == e + (f + g);
  }

  lemma Between(before: string, data: string, after: string)
    ensures (before + data + after)[|before|..|before + data|] == data
  {
  }

  // ─── Stripping ───

  /** No metadata tag starts in a fresh text, whatever follows it. */
  lemma NoTagBefore(pre: string, rest: string, j: nat)
    requires Fresh(pre) && j < |pre|
    ensures !At(Lower(pre + rest), METADATA_TAG, j)
  {
    hide At, FindFrom;
    var s := Lower(pre + rest);
    LowerConcat(pre, rest);
    if j + 9 <= |pre| {
      FindIsFirst(Lower(pre), METADATA_TAG, 0);
      AtPrefix(s, Lower(pre), METADATA_TAG, j, |pre|);
    } else {
      var i := |pre| - 1 - j;
      AtChar(s, METADATA_TAG, j, i);
      assert s[|pre| - 1] == '>';
      NoAngleInTag(i);
    }
  }

  lemma NoAngleInTag(i: nat)
    requires i < 9
    ensures METADATA_TAG[i] != '>'
  {
    assert '>' !in METADATA_TAG;
  }

  /** Stripping leaves a fresh text alone and goes on behind it. */
  lemma StripBehind(pre: string, post: string)
    requires Fresh(pre)
    ensures StripText(pre + post) == pre + StripText(post)
  {
    hide At, FindFrom, FindTag, StripText, Fresh, ElementEnd;
    var svg := pre + post;
    forall j: nat | j < |pre|
      ensures !At(Lower(svg), METADATA_TAG, j)
    {
      NoTagBefore(pre, post, j);
    }
    SkipTo(svg, METADATA_TAG, 0, |pre|);
    StripUnfolds(svg);
    assert svg[|pre|..] == post;
    StripTurn(svg, |pre|, |pre|, pre);
    var found := FindTag(svg, METADATA_TAG, |pre|);
    if found.Some? {
      assert pre + svg[|pre|..found.value] == svg[..found.value];
    }
  }

  lemma CloseChars(i: nat)
    requires i < 16
    ensures |CLOSE| == 16 && (CLOSE[i] == '<' <==> i == 3) && CLOSE[5] == 's'
  {
    MarkerNames();
    assert CLOSE[5] == TAG[0];
    if 5 <= i < 15 {
      assert CLOSE[i] == TAG[i - 5];
    }
  }

  /** The element's body, between its opening and its closing tag. */
  function Body(payload: seq<byte>): string {
    OPEN + Encoded(payload) + CLOSE
  }

  /** No closing metadata tag starts in the body: its few angle brackets open the payload markers. */
  lemma BodyAngles(payload: seq<byte>, b: nat)
    requires b < |Body(payload)|
    ensures Body(payload)[b] == '<' ==>
              (b + 2 < |Body(payload)| &&
               (Body(payload)[b + 1] == 's' || Body(payload)[b + 1] == '!' || Body(payload)[b + 2] == 's'))
  {
    hide OPEN, CLOSE, Encoded;
    var body, data := Body(payload), Encoded(payload);
    EncodedBland(payload);
    MarkerChars(0);
    CloseChars(0);
    if b < 21 {
      MarkerChars(b);
      assert body[b] == OPEN[b] && body[1] == OPEN[1] && body[13] == OPEN[13];
    } else if b < 21 + |data| {
      assert body[b] == data[b - 21];
    } else {
      var i := b - 21 - |data|;
      CloseChars(i);
      assert body[b] == CLOSE[i];
      assert i + 2 < 16 ==> body[b + 2] == CLOSE[i + 2];
    }
  }

  lemma NoEndInBody(before: string, payload: seq<byte>, after: string, j: nat)
    requires |before| <= j < |before + Body(payload)|
    ensures !At(Lower(before + Body(payload) + after), END, j)
  {
    hide Body, At;
    var s := before + Body(payload) + after;
    AtChar(Lower(s), END, j, 0);
    AtChar(Lower(s), END, j, 1);
    AtChar(Lower(s), END, j, 2);
    var b := j - |before|;
    assert s[j] == Body(payload)[b];
    BodyAngles(payload, b);
    if b + 2 < |Body(payload)| {
      assert s[j + 1] == Body(payload)[b + 1] && s[j + 2] == Body(payload)[b + 2];
    }
  }

  /** The element embedded is, for the stripper, one element from tag to tag. */
  lemma WholeElement(pre: string, payload: seq<byte>, post: string)
    requires Fresh(pre)
    ensures var out := pre + Element(payload) + post;
            FindTag(out, METADATA_TAG, 0) == Some(|pre|) &&
            FindFrom(out, ">", |pre|) == Some(|pre| + |HEADER| - 1) &&
            ElementEnd(out, |pre| + |HEADER|) == |pre + Element(payload)|
  {
    hide HEADER, OPEN, CLOSE, FindFrom, FindTag, Fresh, At, Encoded;
    var out := pre + Element(payload) + post;
    var rest := Element(payload) + post;
    assert out == pre + rest;
    HeaderChars(0);
    TagFound(pre, payload, post);
    Regroup(pre, HEADER, OPEN, Encoded(payload), CLOSE, END, post);
    var before := pre + HEADER;
    assert out == before + Body(payload) + (END + post);
    HeaderCloses(pre, Body(payload) + (END + post));
    assert out == before + (Body(payload) + (END + post));
    EndFound(before, payload, post);
    assert out[|before| - 2] == HEADER[|HEADER| - 2];
  }

  lemma HeaderCloses(pre: string, rest: string)
    ensures FindFrom(pre + HEADER + rest, ">", |pre|) == Some(|pre| + |HEADER| - 1)
  {
    hide HEADER, FindFrom, At;
    var out := pre + HEADER + rest;
    HeaderChars(0);
    forall j: nat | |pre| <= j < |pre| + |HEADER| - 1
      ensures !At(out, ">", j)
    {
      HeaderChars(j - |pre|);
      AtChar(out, ">", j, 0);
      assert out[j] == HEADER[j - |pre|];
    }
    HeaderChars(|HEADER| - 1);
    var last := |pre| + |HEADER| - 1;
    assert out[last] == HEADER[|HEADER| - 1];
    OneChar(out, '>', last);
    FoundAt(out, ">", |pre|, last);
  }

  lemma TagFound(pre: string, payload: seq<byte>, post: string)
    requires Fresh(pre)
    ensures FindTag(pre + Element(payload) + post, METADATA_TAG, 0) == Some(|pre|)
  {
    hide HEADER, OPEN, CLOSE, FindFrom, FindTag, Fresh, At, Encoded;
    var rest := Element(payload) + post;
    var out := pre + rest;
    assert out == pre + Element(payload) + post;
    HeaderChars(9);
    forall j: nat | j < |pre|
      ensures !At(Lower(out), METADATA_TAG, j)
    {
      NoTagBefore(pre, rest, j);
    }
    assert At(Lower(out), METADATA_TAG, |pre|) by {
      LowerConcat(pre, rest);
      AtShift(Lower(pre), Lower(rest), METADATA_TAG, 0);
      assert Lower(rest)[..9] == Lower(HEADER)[..9];
      assert Lower(rest)[0..9] == METADATA_TAG;
      OpensWith(Lower(rest), METADATA_TAG);
    }
    assert out[|pre| + 9] == HEADER[9];
    TagAt(out, METADATA_TAG, 0, |pre|);
  }

  lemma OpensWith(s: string, pat: string)
    requires |pat| <= |s| && s[0..|pat|] == pat
    ensures At(s, pat, 0)
  {
  }

  lemma EndFound(before: string, payload: seq<byte>, post: string)
    ensures var out := before + Body(payload) + (END + post);
            FindFrom(Lower(out), END, |before|) == Some(|before + Body(payload)|)
  {
    hide Body, FindFrom, At;
    var out := before + Body(payload) + (END + post);
    forall j: nat | |before| <= j < |before + Body(payload)|
      ensures !At(Lower(out), END, j)
    {
      NoEndInBody(before, payload, END + post, j);
    }
    LowerConcat(before + Body(payload), END + post);
    LowerConcat(END, post);
    assert Lower(END) == END;
    AtFront(Lower(before + Body(payload)), END, Lower(post));
    FoundAt(Lower(out), END, |before|, |before + Body(payload)|);
  }

  /** Stripping takes away exactly what was embedded. */
  lemma StripTextAfterEmbed(pre: string, payload: seq<byte>, post: string)
    requires Fresh(pre)
    ensures StripText(pre + Element(payload) + post) == StripText(pre + post)
  {
    hide HEADER, Element, FindFrom, FindTag, Fresh, At, Encoded, StripText, ElementEnd;
    var out := pre + Element(payload) + post;
    StripUnfolds(out);
    WholeElement(pre, payload, post);
    StripBehind(pre, post);
    assert out[..|pre|] == pre && out[|pre + Element(payload)|..] == post;
  }

  // ─── The laws, on bytes ───

  /** Valid UTF-8 whose text can host a payload and is fresh up to there. */
  ghost predicate CanHost(svg: seq<byte>) {
    Utf8.Decode(svg).Some? && Hosts(Utf8.Decode(svg).value)
  }

  lemma RecoverTextAfterEmbed(pre: string, payload: seq<byte>, post: string)
    requires Fresh(pre)
    ensures RecoverText(pre + Element(payload) + post) == Ok(Some(payload))
  {
    hide Element, Extract, Fresh, Encoded, Base64.Decode, Base64.Encode, Utf8.Encode;
    ExtractAfterEmbed(pre, post, payload);
    EncodedBland(payload);
    Base64.RoundTrip(payload);
  }

  /** Embedding leaves the root's opening tag, and so its end, where it was. */
  lemma RootStays(svg: string, payload: seq<byte>)
    requires Hosts(svg)
    ensures EmbedText(svg, payload).Ok? && Hosts(EmbedText(svg, payload).value) &&
            RootEnd(EmbedText(svg, payload).value) == RootEnd(svg) &&
            EmbedText(svg, payload).value[..RootEnd(svg).value] == svg[..RootEnd(svg).value]
  {
    hide FindTag, FindFrom, At, Fresh, Element;
    var end := RootEnd(svg).value;
    var pre, rest := svg[..end], Element(payload) + svg[end..];
    var out := pre + rest;
    assert EmbedText(svg, payload).value == out;
    var open := FindTag(svg, SVG_TAG, 0).value;
    RootTagEnds(svg, open);
    FindTagPrefix(svg, out, SVG_TAG, 0, end);
    FindPrefix(svg, out, ">", open, end);
    assert out[..end] == pre;
    if end >= 2 {
      assert out[end - 2..end] == out[..end][end - 2..end] && svg[end - 2..end] == svg[..end][end - 2..end];
    }
  }

  /** The root's tag name has no closing bracket in it. */
  lemma RootTagEnds(svg: string, open: nat)
    requires At(Lower(svg), SVG_TAG, open) && FindFrom(svg, ">", open).Some?
    ensures FindFrom(svg, ">", open).value >= open + 4
  {
    hide FindFrom;
    var gt := FindFrom(svg, ">", open).value;
    AtChar(svg, ">", gt, 0);
    assert '>' !in SVG_TAG;
    if gt < open + 4 {
      AtChar(Lower(svg), SVG_TAG, open, gt - open);
    }
  }

  lemma EmbedOnText(svg: seq<byte>, payload: seq<byte>)
    requires CanHost(svg)
    ensures var text := Utf8.Decode(svg).value;
            Embed(svg, payload).Ok? && EmbedText(text, payload).Ok? &&
            Utf8.Decode(Embed(svg, payload).value) == Some(EmbedText(text, payload).value)
    ensures CanHost(Embed(svg, payload).value)
  {
    hide Utf8.Decode, Utf8.Encode, EmbedText, Hosts;
    var text := Utf8.Decode(svg).value;
    RootStays(text, payload);
    Utf8.DecodeEncode(EmbedText(text, payload).value);
  }

  /** What is embedded is recovered. */
  lemma RecoverAfterEmbed(svg: seq<byte>, payload: seq<byte>)
    requires CanHost(svg)
    ensures Embed(svg, payload).Ok? && Recover(Embed(svg, payload).value) == Ok(Some(payload))
  {
    hide Utf8.Decode, Embed, RecoverText, Element, Fresh, RootEnd;
    EmbedOnText(svg, payload);
    var text := Utf8.Decode(svg).value;
    var end := RootEnd(text).value;
    RecoverTextAfterEmbed(text[..end], payload, text[end..]);
  }

  /** A second embed wins: its element comes first. */
  lemma SecondEmbedWins(svg: seq<byte>, first: seq<byte>, second: seq<byte>)
    requires CanHost(svg)
    ensures Embed(svg, first).Ok? && Embed(Embed(svg, first).value, second).Ok? &&
            Recover(Embed(Embed(svg, first).value, second).value) == Ok(Some(second))
  {
    hide CanHost, Embed, Recover;
    EmbedOnText(svg, first);
    RecoverAfterEmbed(Embed(svg, first).value, second);
  }

  /** Stripping after embedding is stripping alone. */
  lemma StripAfterEmbed(svg: seq<byte>, payload: seq<byte>)
    requires CanHost(svg)
    ensures Embed(svg, payload).Ok? && Strip(Embed(svg, payload).value) == Strip(svg)
  {
    hide Utf8.Decode, Utf8.Encode, Embed, StripText, Element, Fresh, RootEnd;
    EmbedOnText(svg, payload);
    var text := Utf8.Decode(svg).value;
    var end := RootEnd(text).value;
    StripTextAfterEmbed(text[..end], payload, text[end..]);
    assert text[..end] + text[end..] == text;
  }

  /** A document without its first metadata element, as the stripper finds and ends it. */
  function WithoutFirst(svg: string): Option<string> {
    var start := FindTag(svg, METADATA_TAG, 0);
    if start.None? then None
    else
      var gt := FindFrom(svg, ">", start.value);
      if gt.None? then None else Some(svg[..start.value] + svg[ElementEnd(svg, gt.value + 1)..])
  }

  /** Embedding only adds: the stripper's first cut takes exactly the element and leaves the document as it was. */
  lemma FirstCutUndoesEmbed(svg: string, payload: seq<byte>)
    requires Hosts(svg)
    ensures EmbedText(svg, payload).Ok? && WithoutFirst(EmbedText(svg, payload).value) == Some(svg)
  {
    hide FindTag, FindFrom, ElementEnd, Element, Fresh, HEADER, RootEnd;
    var pre, post := svg[..RootEnd(svg).value], svg[RootEnd(svg).value..];
    var out := pre + Element(payload) + post;
    WholeElement(pre, payload, post);
    assert out[..|pre|] == pre && out[|pre + Element(payload)|..] == post && pre + post == svg;
  }
  /** What stands between the first payload marker and the next closing one is the payload, or an error. */
  lemma RecoverReads(svg: string, open: nat, close: nat)
    requires At(svg, OPEN, open) && (forall j: nat :: j < open ==> !At(svg, OPEN, j))
    requires At(svg, CLOSE, close) && open + |OPEN| <= close
    requires forall j: nat :: open + |OPEN| <= j < close ==> !At(svg, CLOSE, j)
    ensures var payload := Base64.Decode(Utf8.Encode(svg[open + |OPEN|..close]));
            RecoverText(svg) == if payload.None? then Err(DecodingFailed("svg")) else Ok(Some(payload.value))
  {
    hide FindFrom, At, OPEN, CLOSE, Base64.Decode, Utf8.Encode;
    FoundAt(svg, OPEN, 0, open);
    FoundAt(svg, CLOSE, open + |OPEN|, close);
  }

  // ─── Where an element goes in, and what a cut takes ───

  /** `k` is where the first tag of the name opens, and `gt` where that tag ends. */
  ghost predicate FirstElement(svg: string, pat: string, k: nat, gt: nat) {
    k < gt < |svg| && OpensTag(svg, pat, k) && (forall j: nat :: j < k ==> !OpensTag(svg, pat, j)) &&
    svg[gt] == '>' && '>' !in svg[k..gt]
  }

  lemma FirstElementFound(svg: string, pat: string, k: nat, gt: nat)
    requires |pat| > 1 && pat[0] !in pat[1..] && pat[0] != '>' && FirstElement(svg, pat, k, gt)
    ensures FindTag(svg, pat, 0) == Some(k) && FindFrom(svg, ">", k) == Some(gt)
  {
    hide FindTag, FindFrom, At, OpensTag;
    FirstTag(svg, pat, 0);
    OneChar(svg, '>', gt);
    forall j: nat | k <= j < gt
      ensures !At(svg, ">", j)
    {
      assert svg[k..gt][j - k] == svg[j];
      AtChar(svg, ">", j, 0);
    }
    FoundAt(svg, ">", k, gt);
  }

  lemma TagNames()
    ensures |SVG_TAG| == 4 && SVG_TAG[0] == '<' && '<' !in SVG_TAG[1..]
    ensures |METADATA_TAG| == 9 && METADATA_TAG[0] == '<' && '<' !in METADATA_TAG[1..]
  {
  }

  /** The payload goes in right behind the root's opening tag; a root that closes itself is refused. */
  lemma EmbedsInRoot(svg: string, payload: seq<byte>, k: nat, gt: nat)
    requires FirstElement(svg, "<svg", k, gt)
    ensures EmbedText(svg, payload) ==
            if svg[gt - 1] == '/' then Err(EncodingFailed("svg"))
            else Ok(svg[..gt + 1] + Element(payload) + svg[gt + 1..])
  {
    hide FindTag, FindFrom, Element, OpensTag;
    TagNames();
    FirstElementFound(svg, SVG_TAG, k, gt);
    assert svg[gt - 1..gt + 1] == [svg[gt - 1], svg[gt]];
  }

  /** A text with no metadata tag is left as it is. */
  lemma NothingToCut(svg: string)
    requires forall k: nat :: !OpensTag(svg, "<metadata", k)
    ensures StripText(svg) == svg
  {
    hide FindTag, FindFrom, OpensTag;
    TagNames();
    FirstTag(svg, METADATA_TAG, 0);
  }

  /** A metadata tag that never ends is left, with all behind it. */
  lemma UnclosedStays(svg: string, k: nat)
    requires OpensTag(svg, "<metadata", k) && forall j: nat :: j < k ==> !OpensTag(svg, "<metadata", j)
    requires k <= |svg| && '>' !in svg[k..]
    ensures StripText(svg) == svg
  {
    hide FindTag, FindFrom, OpensTag, StripText, At;
    TagNames();
    FirstTag(svg, METADATA_TAG, 0);
    FindIsFirst(svg, ">", k);
    var gt := FindFrom(svg, ">", k);
    if gt.Some? {
      NowhereBehind(svg, '>', k, gt.value);
      AtChar(svg, ">", gt.value, 0);
    }
    StripUnfolds(svg);
  }

  lemma NowhereBehind(s: string, c: char, k: nat, j: nat)
    requires k <= j < |s| && c !in s[k..]
    ensures s[j] != c
  {
    assert s[j] == s[k..][j - k];
  }

  /**
   The first metadata element goes, and the rest is stripped on: up to its tag's end if the tag closes itself, else
   through the first closing tag behind it, letter case aside, or, if none follows, to the end of the text.
   */
  lemma CutsElement(svg: string, k: nat, gt: nat, close: nat)
    requires FirstElement(svg, "<metadata", k, gt)
    ensures svg[gt - 1] == '/' ==> StripText(svg) == svg[..k] + StripText(svg[gt + 1..])
    ensures svg[gt - 1] != '/' && close > gt && At(Lower(svg), END, close) &&
            (forall j: nat :: gt < j < close ==> !At(Lower(svg), END, j)) ==>
            close + 11 <= |svg| && StripText(svg) == svg[..k] + StripText(svg[close + 11..])
    ensures svg[gt - 1] != '/' && (forall j: nat :: gt < j ==> !At(Lower(svg), END, j)) ==> StripText(svg) == svg[..k]
  {
    hide FindTag, FindFrom, OpensTag, Lower, At, END, ElementEnd, StripText;
    EndNamed();
    FirstCut(svg, k, gt);
    EndOfFirst(svg, gt, close);
    NothingLeft(svg);
  }

  lemma FirstCut(svg: string, k: nat, gt: nat)
    requires FirstElement(svg, "<metadata", k, gt)
    ensures StripText(svg) == svg[..k] + StripText(svg[ElementEnd(svg, gt + 1)..])
  {
    hide FindTag, FindFrom, OpensTag, ElementEnd, StripText;
    TagNames();
    FirstElementFound(svg, METADATA_TAG, k, gt);
    StripUnfolds(svg);
  }

  lemma EndOfFirst(svg: string, gt: nat, close: nat)
    requires 0 < gt < |svg| && svg[gt] == '>'
    ensures svg[gt - 1] == '/' ==> ElementEnd(svg, gt + 1) == gt + 1
    ensures svg[gt - 1] != '/' && close > gt && At(Lower(svg), END, close) &&
            (forall j: nat :: gt < j < close ==> !At(Lower(svg), END, j)) ==>
            close + |END| <= |svg| && ElementEnd(svg, gt + 1) == close + |END|
    ensures svg[gt - 1] != '/' && (forall j: nat :: gt < j ==> !At(Lower(svg), END, j)) ==>
            ElementEnd(svg, gt + 1) == |svg|
  {
    hide FindFrom, Lower, At, END;
    assert svg[gt - 1..gt + 1] == [svg[gt - 1], svg[gt]];
    FindIsFirst(Lower(svg), END, gt + 1);
    if close > gt && At(Lower(svg), END, close) && forall j: nat :: gt < j < close ==> !At(Lower(svg), END, j) {
      FoundAt(Lower(svg), END, gt + 1, close);
    }
  }

  lemma EndNamed()
    ensures |END| == 11
  {
  }

  lemma NothingLeft(svg: string)
    ensures StripText(svg[|svg|..]) == ""
  {
    hide FindTag, FindFrom, StripText;
    assert svg[|svg|..] == "";
    StripUnfolds("");
  }
}
