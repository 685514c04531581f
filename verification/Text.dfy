/** The string operations of the file-name parser, on ASCII text. */
module Text {
  import opened Prelude

  function LowerChar(c: char): char {
    if 'A' <= c <= 'Z' then c + ' ' else c
  }

  /** The 26 capital letters lie 32 before the small ones; nothing else changes. */
  lemma LowerCharIs(c: char)
    ensures LowerChar(c) as int == if 65 <= c as int <= 90 then c as int + 32 else c as int
  {
  }

  function Lower(s: string): (r: string)
    ensures |r| == |s|
    ensures forall i :: 0 <= i < |s| ==> r[i] == LowerChar(s[i])
  {
    seq(|s|, i requires 0 <= i < |s| => LowerChar(s[i]))
  }

  function Reverse(s: string): (r: string)
    ensures |r| == |s|
    ensures forall i :: 0 <= i < |s| ==> r[i] == s[|s| - 1 - i]
  {
    seq(|s|, i requires 0 <= i < |s| => s[|s| - 1 - i])
  }

  lemma ReverseTwice(s: string)
    ensures Reverse(Reverse(s)) == s
  {
  }

  predicate StartsWith(s: string, p: string) {
    p <= s
  }

  predicate EndsWith(s: string, p: string) {
    |p| <= |s| && s[|s| - |p|..] == p
  }

  predicate Lacks(s: string, c: char) {
    forall i :: 0 <= i < |s| ==> s[i] != c
  }

  /** Whether a pattern stands at place i. */
  predicate StandsAt(s: string, p: string, i: int) {
    0 <= i <= |s| - |p| && s[i..i + |p|] == p
  }

  lemma StandsIs(s: string, p: string, i: int)
    ensures StandsAt(s, p, i) <==> 0 <= i <= |s| - |p| && forall k :: 0 <= k < |p| ==> p[k] == s[i + k]
  {
    if 0 <= i <= |s| - |p| {
      var window := s[i..i + |p|];
      assert forall k :: 0 <= k < |p| ==> window[k] == s[i + k];
    }
  }

  /** The first place of a pattern. */
  function Find(s: string, p: string): (r: Option<nat>)
    ensures r.Some? ==> StandsAt(s, p, r.value) && forall i :: 0 <= i < r.value ==> !StandsAt(s, p, i)
    ensures r.None? ==> forall i :: !StandsAt(s, p, i)
  {
    FindFrom(s, p, 0)
  }

  function FindFrom(s: string, p: string, from: nat): (r: Option<nat>)
    ensures r.Some? ==> from <= r.value && StandsAt(s, p, r.value) && forall i :: from <= i < r.value ==> !StandsAt(s, p, i)
    ensures r.None? ==> forall i :: from <= i ==> !StandsAt(s, p, i)
    decreases |s| - from
  {
    if from + |p| > |s| then None
    else if s[from..from + |p|] == p then Some(from)
    else FindFrom(s, p, from + 1)
  }

  lemma FindIs(s: string, p: string, i: nat)
    requires StandsAt(s, p, i) && forall j :: 0 <= j < i ==> !StandsAt(s, p, j)
    ensures Find(s, p) == Some(i)
  {
  }

  /** Replaces every non-overlapping occurrence, from the left. */
  function Replace(s: string, p: string, with: string): string
    requires |p| > 0
    decreases |s|
  {
    match Find(s, p)
    case None => s
    case Some(i) => s[..i] + with + Replace(s[i + |p|..], p, with)
  }

  /** Cuts at every non-overlapping occurrence of a separator, from the left. */
  function Split(s: string, p: string): (r: seq<string>)
    requires |p| > 0
    ensures |r| > 0
    decreases |s|
  {
    match Find(s, p)
    case None => [s]
    case Some(i) => [s[..i]] + Split(s[i + |p|..], p)
  }

  predicate IsSpace(c: char) {
    c == ' ' || '\t' <= c <= '\r'
  }

  function TrimStart(s: string): string {
    if |s| > 0 && IsSpace(s[0]) then TrimStart(s[1..]) else s
  }

  function TrimEnd(s: string): string {
    if |s| > 0 && IsSpace(s[|s| - 1]) then TrimEnd(s[..|s| - 1]) else s
  }

  function Trim(s: string): string {
    TrimEnd(TrimStart(s))
  }

  lemma {:induction false} TrimTrailing(s: string, spaces: string)
    requires forall i :: 0 <= i < |s| ==> !IsSpace(s[i])
    requires |s| > 0 && forall i :: 0 <= i < |spaces| ==> IsSpace(spaces[i])
    ensures Trim(s + spaces) == s
    decreases |spaces|
  {
    var all := s + spaces;
    assert TrimStart(all) == all;
    if spaces == "" {
      assert all == s;
    } else {
      TrimTrailing(s, spaces[..|spaces| - 1]);
      assert all[..|all| - 1] == s + spaces[..|spaces| - 1];
      assert TrimStart(s + spaces[..|spaces| - 1]) == s + spaces[..|spaces| - 1];
    }
  }

  /** Blanks are taken off both ends and nothing else is. */
  lemma {:induction false} TrimIs(before: string, s: string, after: string)
    requires forall i :: 0 <= i < |before| ==> before[i] == ' ' || 9 <= before[i] as int <= 13
    requires forall i :: 0 <= i < |after| ==> after[i] == ' ' || 9 <= after[i] as int <= 13
    requires s != "" && s[0] != ' ' && !(9 <= s[0] as int <= 13)
    requires s[|s| - 1] != ' ' && !(9 <= s[|s| - 1] as int <= 13)
    ensures Trim(before + s + after) == s
    decreases |before| + |after|
  {
    var all := before + s + after;
    if before != "" {
      assert all[1..] == before[1..] + s + after;
      TrimIs(before[1..], s, after);
    } else if after != "" {
      var shorter := s + after[..|after| - 1];
      assert all[..|all| - 1] == shorter && TrimStart(all) == all && TrimStart(shorter) == shorter;
      assert before + s + after[..|after| - 1] == shorter;
      TrimIs(before, s, after[..|after| - 1]);
    } else {
      assert all == s;
    }
  }

  /** Text before the first separator is the first piece. */
  lemma SplitFirst(first: string, p: string, rest: string)
    requires |p| > 0 && forall i :: 0 <= i < |first| ==> !StandsAt(first + p + rest, p, i)
    ensures Split(first + p + rest, p) == [first] + Split(rest, p)
  {
    var all := first + p + rest;
    assert all[|first|..|first| + |p|] == p;
    FindIs(all, p, |first|);
    assert all[..|first|] == first && all[|first| + |p|..] == rest;
  }
}
