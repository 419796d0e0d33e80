/** Which stacks of carriers are legal. */
module Composition {
  import opened Results
  import opened Carriers

  /** A carrier as the rules see it: its name and its alphabet. */
  datatype Method = Method(id: string, channel: seq<char>)

  function Listed(c: Carrier): Method {
    Method(c.id, c.Channel())
  }

  /** Invisible format controls a carrier may use without touching the visible text. */
  predicate IsInvisibleFormat(c: char) {
    '\U{200B}' <= c <= '\U{200F}' || '\U{202A}' <= c <= '\U{202E}' || '\U{2060}' <= c <= '\U{2064}' ||
    '\U{206A}' <= c <= '\U{206F}' || c == '\U{FEFF}'
  }

  predicate Rewrites(channel: seq<char>) {
    exists i :: 0 <= i < |channel| && !IsInvisibleFormat(channel[i])
  }

  predicate RewritesVisibleText(c: Carrier) {
    Rewrites(c.Channel())
  }

  /** The first character of `alphabet`, from index `k` on, that `second` also uses. */
  function Shared(alphabet: seq<char>, k: nat, second: seq<char>): (r: Option<char>)
    ensures r.None? <==> forall i :: k <= i < |alphabet| ==> alphabet[i] !in second
    ensures r.Some? ==> r.value in second && r.value in alphabet
    decreases |alphabet| - k
  {
    if k >= |alphabet| then None
    else if alphabet[k] in second then Some(alphabet[k])
    else Shared(alphabet, k + 1, second)
  }

  predicate Apart(a: seq<char>, b: seq<char>) {
    forall i :: 0 <= i < |a| ==> a[i] !in b
  }

  function CollisionWith(first: Method, methods: seq<Method>, j: nat): (r: Option<Error>)
    ensures r.None? <==> forall k :: j <= k < |methods| ==> Apart(first.channel, methods[k].channel)
    decreases |methods| - j
  {
    if j >= |methods| then None
    else
      var shared := Shared(first.channel, 0, methods[j].channel);
      if shared.Some? then Some(ChannelCollision(first.id, methods[j].id, shared.value))
      else CollisionWith(first, methods, j + 1)
  }

  function CollisionFrom(methods: seq<Method>, i: nat): (r: Option<Error>)
    ensures r.None? <==> forall a, b :: i <= a < b < |methods| ==> Apart(methods[a].channel, methods[b].channel)
    decreases |methods| - i
  {
    if i >= |methods| then None
    else
      var found := CollisionWith(methods[i], methods, i + 1);
      if found.Some? then found else CollisionFrom(methods, i + 1)
  }

  function OrderFrom(methods: seq<Method>, i: nat): (r: Option<Error>)
    ensures r.None? <==> forall a :: i <= a < |methods| - 1 ==> !Rewrites(methods[a].channel)
    decreases |methods| - i
  {
    if i + 1 >= |methods| then None
    else if Rewrites(methods[i].channel) then Some(CompositionOrder(methods[i].id, methods[i + 1].id))
    else OrderFrom(methods, i + 1)
  }

  /** A stack is legal when alphabets are pairwise disjoint and only the last carrier rewrites visible text. */
  function ValidateComposition(methods: seq<Method>): (r: Result<()>)
    ensures r.Ok? <==>
      (forall a, b :: 0 <= a < b < |methods| ==> Apart(methods[a].channel, methods[b].channel)) &&
      (forall a :: 0 <= a < |methods| - 1 ==> !Rewrites(methods[a].channel))
  {
    var collision := CollisionFrom(methods, 0);
    if collision.Some? then Err(collision.value)
    else
      var order := OrderFrom(methods, 0);
      if order.Some? then Err(order.value) else Ok(())
  }

  /** The rules for a stack of inserting carriers. */
  function ValidateStack(carriers: seq<Carrier>): (r: Result<()>)
    ensures |carriers| == 1 ==> r.Ok?
  {
    ValidateComposition(seq(|carriers|, i requires 0 <= i < |carriers| => Listed(carriers[i])))
  }

  // ─── The carriers there are ───

  /** The substituting carrier's alphabet: Latin letters and, each behind its own, the Cyrillic look-alikes. */
  const LOWER_PAIRS: seq<char> := [
    'a', '\U{0430}', 'c', '\U{0441}', 'e', '\U{0435}', 'o', '\U{043E}', 'p', '\U{0440}',
    'x', '\U{0445}', 'y', '\U{0443}', 's', '\U{0455}', 'i', '\U{0456}', 'j', '\U{0458}']

  const UPPER_PAIRS: seq<char> := [
    'A', '\U{0410}', 'B', '\U{0412}', 'C', '\U{0421}', 'E', '\U{0415}', 'H', '\U{041D}',
    'K', '\U{041A}', 'M', '\U{041C}', 'O', '\U{041E}', 'P', '\U{0420}', 'T', '\U{0422}',
    'X', '\U{0425}', 'S', '\U{0405}', 'I', '\U{0406}', 'J', '\U{0408}']

  const HOMOGLYPH := Method("homoglyph", LOWER_PAIRS + UPPER_PAIRS)

  lemma HomoglyphIsVisible(ch: char)
    requires ch in HOMOGLYPH.channel
    ensures ch < '\U{0460}'
  {
    hide LOWER_PAIRS, UPPER_PAIRS;
    var i :| 0 <= i < |HOMOGLYPH.channel| && HOMOGLYPH.channel[i] == ch;
    if i < |LOWER_PAIRS| {
      LowerVisible(i);
    } else {
      UpperVisible(i - |LOWER_PAIRS|);
    }
  }

  lemma LowerVisible(i: nat)
    requires i < |LOWER_PAIRS|
    ensures LOWER_PAIRS[i] < '\U{0460}'
  {
  }

  lemma UpperVisible(i: nat)
    requires i < |UPPER_PAIRS|
    ensures UPPER_PAIRS[i] < '\U{0460}'
  {
  }

  predicate InsertingMethod(m: Method) {
    m == Listed(ZERO_WIDTH) || m == Listed(WHITESPACE_VAR) || m == Listed(BIDI)
  }

  /**
   A stack of the four carriers, none twice, is legal if and only if the substituting one comes last or not at
   all.
   */
  lemma RealCarriersCompose(methods: seq<Method>)
    requires forall a :: 0 <= a < |methods| ==> InsertingMethod(methods[a]) || methods[a] == HOMOGLYPH
    requires forall a, b :: 0 <= a < b < |methods| ==> methods[a] != methods[b]
    ensures ValidateComposition(methods).Ok? <==> forall a :: 0 <= a < |methods| - 1 ==> methods[a] != HOMOGLYPH
  {
    hide InsertingMethod, HOMOGLYPH, Rewrites, Apart;
    forall a, b | 0 <= a < b < |methods|
      ensures Apart(methods[a].channel, methods[b].channel)
    {
      MethodsApart(methods[a], methods[b]);
    }
    forall a | 0 <= a < |methods|
      ensures Rewrites(methods[a].channel) <==> methods[a] == HOMOGLYPH
    {
      OnlyHomoglyphRewrites(methods[a]);
    }
  }

  lemma OnlyHomoglyphRewrites(m: Method)
    requires InsertingMethod(m) || m == HOMOGLYPH
    ensures Rewrites(m.channel) <==> m == HOMOGLYPH
  {
    hide UPPER_PAIRS;
    var ch := HOMOGLYPH.channel[0];
    assert ch == LOWER_PAIRS[0] == 'a';
    if InsertingMethod(m) {
      HiddenAlphabet(m);
    }
  }

  /** An inserting carrier's alphabet is invisible. */
  lemma HiddenAlphabet(m: Method)
    requires InsertingMethod(m)
    ensures forall i :: 0 <= i < |m.channel| ==> IsInvisibleFormat(m.channel[i])
  {
  }

  lemma MethodsApart(a: Method, b: Method)
    requires InsertingMethod(a) || a == HOMOGLYPH
    requires InsertingMethod(b) || b == HOMOGLYPH
    requires a != b
    ensures Apart(a.channel, b.channel)
  {
    hide HOMOGLYPH, Listed;
    if a == HOMOGLYPH {
      HiddenAlphabet(b);
      forall i | 0 <= i < |a.channel|
        ensures a.channel[i] !in b.channel
      {
        HomoglyphIsVisible(a.channel[i]);
      }
    } else if b == HOMOGLYPH {
      HiddenAlphabet(a);
      forall i | 0 <= i < |a.channel|
        ensures a.channel[i] !in b.channel
      {
        if a.channel[i] in b.channel {
          HomoglyphIsVisible(a.channel[i]);
        }
      }
    } else {
      InsertingApart(a, b);
    }
  }

  lemma InsertingApart(a: Method, b: Method)
    requires InsertingMethod(a) && InsertingMethod(b) && a != b
    ensures Apart(a.channel, b.channel)
  {
  }

  lemma RealCarrierInvisible(c: Carrier)
    requires c in {ZERO_WIDTH, WHITESPACE_VAR, BIDI}
    ensures !RewritesVisibleText(c) && c.WellFormed()
    ensures forall ch :: c.Strips(ch) ==> IsFormatControl(ch)
  {
  }

  /** What one inserting carrier strips is never of another's alphabet. */
  lemma PairDisjoint(a: Carrier, b: Carrier)
    requires a in {ZERO_WIDTH, WHITESPACE_VAR, BIDI} && b in {ZERO_WIDTH, WHITESPACE_VAR, BIDI} && a != b
    ensures forall ch :: a.Strips(ch) ==> !b.InChannel(ch)
  {
  }

  /** So every stack of distinct inserting carriers is legal. */
  lemma RealStacksLegal(carriers: seq<Carrier>)
    requires forall a :: 0 <= a < |carriers| ==> carriers[a] in {ZERO_WIDTH, WHITESPACE_VAR, BIDI}
    requires forall a, b :: 0 <= a < b < |carriers| ==> carriers[a] != carriers[b]
    ensures ValidateStack(carriers).Ok?
  {
    hide HOMOGLYPH, Listed;
    var methods := seq(|carriers|, i requires 0 <= i < |carriers| => Listed(carriers[i]));
    forall a, b | 0 <= a < b < |methods|
      ensures methods[a] != methods[b]
    {
      ListedDiffer(carriers[a], carriers[b]);
    }
    forall a | 0 <= a < |methods|
      ensures InsertingMethod(methods[a]) && methods[a] != HOMOGLYPH
    {
      ListedInserts(carriers[a]);
    }
    RealCarriersCompose(methods);
  }

  lemma ListedDiffer(a: Carrier, b: Carrier)
    requires a in {ZERO_WIDTH, WHITESPACE_VAR, BIDI} && b in {ZERO_WIDTH, WHITESPACE_VAR, BIDI} && a != b
    ensures Listed(a) != Listed(b)
  {
    assert Listed(a).channel[0] == a.zero && Listed(b).channel[0] == b.zero;
  }

  lemma ListedInserts(c: Carrier)
    requires c in {ZERO_WIDTH, WHITESPACE_VAR, BIDI}
    ensures InsertingMethod(Listed(c)) && Listed(c) != HOMOGLYPH
  {
    hide UPPER_PAIRS;
    assert HOMOGLYPH.channel[0] == LOWER_PAIRS[0] == 'a' && Listed(c).channel[0] == c.zero;
  }
  // ─── What a refusal names ───

  lemma {:induction false} ClashWith(first: Method, methods: seq<Method>, j: nat) returns (k: nat)
    requires CollisionWith(first, methods, j).Some?
    ensures j <= k < |methods| && forall l :: j <= l < k ==> Apart(first.channel, methods[l].channel)
    ensures exists ch :: CollisionWith(first, methods, j) == Some(ChannelCollision(first.id, methods[k].id, ch)) &&
                         ch in first.channel && ch in methods[k].channel
    decreases |methods| - j
  {
    k := j;
    if Shared(first.channel, 0, methods[j].channel).None? {
      k := ClashWith(first, methods, j + 1);
    }
  }

  lemma {:induction false} ClashFrom(methods: seq<Method>, from: nat) returns (i: nat, j: nat)
    requires CollisionFrom(methods, from).Some?
    ensures from <= i < j < |methods| && forall l :: i < l < j ==> Apart(methods[i].channel, methods[l].channel)
    ensures forall h, l :: from <= h < i && h < l < |methods| ==> Apart(methods[h].channel, methods[l].channel)
    ensures exists ch :: CollisionFrom(methods, from) == Some(ChannelCollision(methods[i].id, methods[j].id, ch)) &&
                         ch in methods[i].channel && ch in methods[j].channel
    decreases |methods| - from
  {
    hide CollisionWith;
    if CollisionWith(methods[from], methods, from + 1).Some? {
      i := from;
      j := ClashWith(methods[from], methods, from + 1);
    } else {
      i, j := ClashFrom(methods, from + 1);
    }
  }

  lemma {:induction false} MisplacedFrom(methods: seq<Method>, from: nat) returns (i: nat)
    requires OrderFrom(methods, from).Some?
    ensures from <= i < |methods| - 1 && Rewrites(methods[i].channel)
    ensures forall h :: from <= h < i ==> !Rewrites(methods[h].channel)
    ensures OrderFrom(methods, from) == Some(CompositionOrder(methods[i].id, methods[i + 1].id))
    decreases |methods| - from
  {
    hide Rewrites;
    i := from;
    if !Rewrites(methods[from].channel) {
      i := MisplacedFrom(methods, from + 1);
    }
  }

  /**
   A refused stack is told why: the first two carriers whose alphabets meet, in order, with a character both use; or,
     when
   none meet, the first carrier that rewrites visible text and the one behind it.
   */
  lemma RefusalNames(methods: seq<Method>) returns (i: nat, j: nat)
    requires ValidateComposition(methods).Err?
    ensures i < j < |methods|
    ensures (exists ch :: ValidateComposition(methods) == Err(ChannelCollision(methods[i].id, methods[j].id, ch)) &&
                          ch in methods[i].channel && ch in methods[j].channel &&
                          (forall l :: i < l < j ==> Apart(methods[i].channel, methods[l].channel)) &&
                          forall h, l :: 0 <= h < i && h < l < |methods| ==>
                            Apart(methods[h].channel, methods[l].channel)) ||
            (j == i + 1 && ValidateComposition(methods) == Err(CompositionOrder(methods[i].id, methods[j].id)) &&
             Rewrites(methods[i].channel) && (forall h :: 0 <= h < i ==> !Rewrites(methods[h].channel)) &&
             forall h, l :: 0 <= h < l < |methods| ==> Apart(methods[h].channel, methods[l].channel))
  {
    hide CollisionFrom, OrderFrom, Rewrites, Apart;
    if CollisionFrom(methods, 0).Some? {
      i, j := ClashFrom(methods, 0);
    } else {
      i := MisplacedFrom(methods, 0);
      j := i + 1;
    }
  }
  /** The invisible format controls a stack's earlier carriers may use. */
  const INVISIBLE: set<int> := {
    0x200B, 0x200C, 0x200D, 0x200E, 0x200F, 0x202A, 0x202B, 0x202C, 0x202D, 0x202E, 0x2060, 0x2061, 0x2062, 0x2063,
      0x2064,
    0x206A, 0x206B, 0x206C, 0x206D, 0x206E, 0x206F, 0xFEFF}

  lemma InvisibleIs(c: char)
    ensures IsInvisibleFormat(c) <==> c as int in INVISIBLE
  {
  }

  /** A carrier rewrites visible text exactly when its alphabet has a character beyond these. */
  lemma RewritesBeyond(channel: seq<char>)
    ensures Rewrites(channel) <==> exists i :: 0 <= i < |channel| && channel[i] as int !in INVISIBLE
  {
    hide IsInvisibleFormat, INVISIBLE;
    forall i | 0 <= i < |channel|
      ensures IsInvisibleFormat(channel[i]) <==> channel[i] as int in INVISIBLE
    {
      InvisibleIs(channel[i]);
    }
  }
}
