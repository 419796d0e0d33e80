/** Substring search: `find` from an index, and tags told apart from look-alikes. */
module Search {
  import opened Results

  predicate At(s: string, pat: string, j: nat) {
    j + |pat| <= |s| && s[j..j + |pat|] == pat
  }

  /** The first occurrence at or after `from`. */
  function FindFrom(s: string, pat: string, from: nat): (r: Option<nat>)
    ensures r.Some? ==> from <= r.value && r.value + |pat| <= |s| && At(s, pat, r.value)
    decreases |s| + 1 - from
  {
    if from + |pat| > |s| then None
    else if At(s, pat, from) then Some(from)
    else FindFrom(s, pat, from + 1)
  }

  /** What is found is the first, and nothing found means there is none. */
  lemma {:induction false} FindIsFirst(s: string, pat: string, from: nat)
    ensures var r := FindFrom(s, pat, from);
            if r.Some? then forall j: nat :: from <= j < r.value ==> !At(s, pat, j)
            else forall j: nat :: from <= j ==> !At(s, pat, j)
    decreases |s| + 1 - from
  {
    if from + |pat| > |s| || At(s, pat, from) {
    } else {
      FindIsFirst(s, pat, from + 1);
    }
  }

  /** An occurrence with none before it is the one found. */
  lemma FoundAt(s: string, pat: string, from: nat, k: nat)
    requires from <= k && At(s, pat, k) && forall j: nat :: from <= j < k ==> !At(s, pat, j)
    ensures FindFrom(s, pat, from) == Some(k)
  {
    hide At, FindFrom;
    FindIsFirst(s, pat, from);
    assert FindFrom(s, pat, from).Some?;
  }

  lemma AtShift(a: string, t: string, pat: string, j: nat)
    ensures At(a + t, pat, |a| + j) <==> At(t, pat, j)
  {
    if j + |pat| <= |t| {
      assert (a + t)[|a| + j..|a| + j + |pat|] == t[j..j + |pat|];
    }
  }

  lemma AtPrefix(s: string, t: string, pat: string, j: nat, n: nat)
    requires n <= |s| && n <= |t| && s[..n] == t[..n] && j + |pat| <= n
    ensures At(s, pat, j) <==> At(t, pat, j)
  {
    assert s[j..j + |pat|] == s[..n][j..j + |pat|] && t[j..j + |pat|] == t[..n][j..j + |pat|];
  }

  /** Where a pattern stands, its characters do. */
  lemma AtChar(s: string, pat: string, j: nat, i: nat)
    requires i < |pat|
    ensures At(s, pat, j) ==> j + i < |s| && s[j + i] == pat[i]
  {
    if At(s, pat, j) {
      assert s[j..j + |pat|][i] == s[j + i];
    }
  }

  lemma AtFront(before: string, pat: string, rest: string)
    ensures At(before + (pat + rest), pat, |before|)
  {
    assert (before + (pat + rest))[|before|..|before| + |pat|] == pat;
  }

  lemma OneChar(s: string, c: char, k: nat)
    requires k < |s| && s[k] == c
    ensures At(s, [c], k)
  {
  }

  /** With no occurrence on the way, the search may start later. */
  lemma FindSkip(s: string, pat: string, from: nat, to: nat)
    requires from <= to && forall j: nat :: from <= j < to ==> !At(s, pat, j)
    ensures FindFrom(s, pat, from) == FindFrom(s, pat, to)
  {
    hide At, FindFrom;
    FindIsFirst(s, pat, from);
    var r := FindFrom(s, pat, from);
    if r.Some? {
      FoundAt(s, pat, to, r.value);
    } else {
      FindIsFirst(s, pat, to);
    }
  }

  function Moved(r: Option<nat>, n: nat): Option<nat> {
    if r.None? then None else Some(r.value + n)
  }

  /** Searching the end of a string is searching it from there. */
  lemma {:induction false} FindShift(a: string, t: string, pat: string, from: nat)
    ensures FindFrom(a + t, pat, |a| + from) == Moved(FindFrom(t, pat, from), |a|)
    decreases |t| + 1 - from
  {
    AtShift(a, t, pat, from);
    if from + |pat| > |t| || At(t, pat, from) {
    } else {
      FindShift(a, t, pat, from + 1);
    }
  }

  /** What is found inside a common prefix is found in both. */
  lemma FindPrefix(s: string, t: string, pat: string, from: nat, n: nat)
    requires n <= |s| && n <= |t| && s[..n] == t[..n]
    requires FindFrom(s, pat, from).Some? && FindFrom(s, pat, from).value + |pat| <= n
    ensures FindFrom(t, pat, from) == FindFrom(s, pat, from)
  {
    hide At, FindFrom;
    FindIsFirst(s, pat, from);
    var k := FindFrom(s, pat, from).value;
    forall j: nat | from <= j <= k
      ensures At(s, pat, j) <==> At(t, pat, j)
    {
      AtPrefix(s, t, pat, j, n);
    }
    FoundAt(t, pat, from, k);
  }

  function LowerChar(c: char): char {
    if 'A' <= c <= 'Z' then (c as int + 32) as char else c
  }

  function Lower(s: string): (t: string)
    ensures |t| == |s| && forall i :: 0 <= i < |s| ==> t[i] == LowerChar(s[i])
  {
    seq(|s|, i requires 0 <= i < |s| => LowerChar(s[i]))
  }

  lemma LowerConcat(a: string, b: string)
    ensures Lower(a + b) == Lower(a) + Lower(b)
  {
  }

  predicate IsAsciiSpace(c: char) {
    c == ' ' || c == '\t' || c == '\n' || c == '\U{000C}' || c == '\r'
  }

  /** The character at `k` does not continue an element name. */
  predicate IsTagBoundary(s: string, k: nat) {
    k >= |s| || s[k] == '>' || s[k] == '/' || IsAsciiSpace(s[k])
  }

  /** The first tag that opens with `pat`, letter case aside, past any look-alikes. */
  function FindTag(s: string, pat: string, from: nat): (r: Option<nat>)
    requires pat != ""
    ensures r.Some? ==> from <= r.value && r.value + |pat| <= |s| && At(Lower(s), pat, r.value)
    decreases |s| + 1 - from
  {
    var k := FindFrom(Lower(s), pat, from);
    if k.None? then None
    else if IsTagBoundary(s, k.value + |pat|) then k
    else FindTag(s, pat, k.value + |pat|)
  }

  lemma BoundaryShift(a: string, t: string, k: nat)
    ensures IsTagBoundary(a + t, |a| + k) <==> IsTagBoundary(t, k)
  {
  }

  lemma {:induction false} FindTagShift(a: string, t: string, pat: string, from: nat)
    requires pat != ""
    ensures FindTag(a + t, pat, |a| + from) == Moved(FindTag(t, pat, from), |a|)
    decreases |t| + 1 - from
  {
    hide At, FindFrom, Lower, IsTagBoundary;
    LowerConcat(a, t);
    FindShift(Lower(a), Lower(t), pat, from);
    var k := FindFrom(Lower(t), pat, from);
    if k.None? {
    } else {
      BoundaryShift(a, t, k.value + |pat|);
      if !IsTagBoundary(t, k.value + |pat|) {
        FindTagShift(a, t, pat, k.value + |pat|);
      }
    }
  }

  lemma {:induction false} FindTagPrefix(s: string, t: string, pat: string, from: nat, n: nat)
    requires pat != "" && n <= |s| && n <= |t| && s[..n] == t[..n]
    requires FindTag(s, pat, from).Some? && FindTag(s, pat, from).value + |pat| < n
    ensures FindTag(t, pat, from) == FindTag(s, pat, from)
    decreases |s| + 1 - from
  {
    hide At, FindFrom, Lower;
    var k := FindFrom(Lower(s), pat, from).value;
    assert Lower(s)[..n] == Lower(t)[..n] by {
      assert forall i :: 0 <= i < n ==> s[i] == s[..n][i] && t[i] == t[..n][i];
    }
    FindPrefix(Lower(s), Lower(t), pat, from, n);
    assert s[k + |pat|] == s[..n][k + |pat|] && t[k + |pat|] == t[..n][k + |pat|];
    if IsTagBoundary(s, k + |pat|) {
    } else {
      FindTagPrefix(s, t, pat, k + |pat|, n);
    }
  }

  /** No occurrence means no tag. */
  lemma NoTag(s: string, pat: string, from: nat)
    requires pat != "" && forall j: nat :: from <= j ==> !At(Lower(s), pat, j)
    ensures FindTag(s, pat, from) == None
  {
    hide At;
  }

  /** With no occurrence before `k` and a tag there, that is the tag found. */
  lemma TagAt(s: string, pat: string, from: nat, k: nat)
    requires pat != "" && from <= k && At(Lower(s), pat, k) && IsTagBoundary(s, k + |pat|)
    requires forall j: nat :: from <= j < k ==> !At(Lower(s), pat, j)
    ensures FindTag(s, pat, from) == Some(k)
  {
    hide At, FindFrom, Lower;
    FoundAt(Lower(s), pat, from, k);
  }

  /** Nothing opens before `k`, so the search may start there. */
  lemma {:induction false} SkipTo(s: string, pat: string, from: nat, k: nat)
    requires pat != "" && from <= k && forall j: nat :: from <= j < k ==> !At(Lower(s), pat, j)
    ensures FindTag(s, pat, from) == FindTag(s, pat, k)
  {
    hide At, FindFrom, Lower;
    FindIsFirst(Lower(s), pat, from);
    var r := FindFrom(Lower(s), pat, from);
    if r.Some? {
      FoundAt(Lower(s), pat, k, r.value);
    } else {
      NoTag(s, pat, k);
    }
  }

  /** The tag search as it runs. */
  method SearchTag(s: string, pat: string) returns (r: Option<nat>)
    requires pat != ""
    ensures r == FindTag(s, pat, 0)
  {
    hide At, FindFrom;
    var lower := Lower(s);
    var from := 0;
    while true
      invariant FindTag(s, pat, 0) == FindTag(s, pat, from)
      decreases |s| + 1 - from
    {
      var found := FindFrom(lower, pat, from);
      if found.None? {
        return None;
      }
      var after := found.value + |pat|;
      if IsTagBoundary(s, after) {
        return found;
      }
      from := after;
    }
  }
  // ─── What a tag is ───

  /** The pattern stands at `k`, letter case aside, and the character behind it does not continue the name. */
  ghost predicate OpensTag(s: string, pat: string, k: nat) {
    k + |pat| <= |s| &&
    (forall i :: 0 <= i < |pat| ==>
       pat[i] == if 'A' <= s[k + i] <= 'Z' then (s[k + i] as int + 32) as char else s[k + i]) &&
    (k + |pat| == |s| || s[k + |pat|] in {'>', '/', ' ', '\t', '\n', '\U{000C}', '\r'})
  }

  lemma TagIs(s: string, pat: string, k: nat)
    ensures OpensTag(s, pat, k) <==> At(Lower(s), pat, k) && IsTagBoundary(s, k + |pat|)
  {
    if k + |pat| <= |s| {
      var low := Lower(s)[k..k + |pat|];
      assert forall i :: 0 <= i < |pat| ==> low[i] == LowerChar(s[k + i]);
      assert low == pat <==> forall i :: 0 <= i < |pat| ==> low[i] == pat[i];
    }
  }

  lemma NotAgain(pat: string, i: nat)
    requires 0 < i < |pat| && pat[0] !in pat[1..]
    ensures pat[i] != pat[0]
  {
    assert pat[i] == pat[1..][i - 1];
  }

  /** Two occurrences of a pattern whose first character comes only once in it do not overlap. */
  lemma Apart(s: string, pat: string, j: nat, k: nat)
    requires pat != "" && pat[0] !in pat[1..] && At(s, pat, j) && At(s, pat, k) && j < k
    ensures j + |pat| <= k
  {
    hide At;
    AtChar(s, pat, k, 0);
    if k < j + |pat| {
      NotAgain(pat, k - j);
      AtChar(s, pat, j, k - j);
    }
  }

  /** The search finds the first tag there is, and nothing only when there is none. */
  lemma {:induction false} FirstTag(s: string, pat: string, from: nat)
    requires pat != "" && pat[0] !in pat[1..]
    ensures var r := FindTag(s, pat, from);
            if r.Some? then OpensTag(s, pat, r.value) && forall j: nat :: from <= j < r.value ==> !OpensTag(s, pat, j)
            else forall j: nat :: from <= j ==> !OpensTag(s, pat, j)
    decreases |s| + 1 - from
  {
    hide At, FindFrom, Lower, OpensTag, IsTagBoundary;
    FindIsFirst(Lower(s), pat, from);
    var k := FindFrom(Lower(s), pat, from);
    if k.None? {
      forall j: nat | from <= j
        ensures !OpensTag(s, pat, j)
      {
        TagIs(s, pat, j);
      }
    } else {
      forall j: nat | from <= j < k.value
        ensures !OpensTag(s, pat, j)
      {
        TagIs(s, pat, j);
      }
      TagIs(s, pat, k.value);
      if !IsTagBoundary(s, k.value + |pat|) {
        FirstTag(s, pat, k.value + |pat|);
        forall j: nat | k.value < j < k.value + |pat|
          ensures !OpensTag(s, pat, j)
        {
          TagIs(s, pat, j);
          if At(Lower(s), pat, j) {
            Apart(Lower(s), pat, k.value, j);
          }
        }
      }
    }
  }
}
