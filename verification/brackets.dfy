/** The one regular expression of the status command, `\[([^\[\]]*)\]`, as it is
    used with Go's `Regexp.FindString`: the result is the leftmost substring that
    consists of `[`, then a run of characters none of which is `[` or `]`, then `]`;
    it is the empty string when the input holds no such substring.

    The pattern is coded by hand. For a fixed opening `[` at most one match can
    start there (the run cannot cross a `]`), so "leftmost" fixes the match. */
module Brackets {

  datatype Option<T> = None | Some(value: T)

  /** A match of the pattern occupying s[open..close + 1]. */
  datatype Group = Group(open: nat, close: nat)

  predicate IsBracket(c: char) {
    c == '[' || c == ']'
  }

  /** No character of s[lo..hi] is a bracket. */
  predicate NoBracketIn(s: string, lo: nat, hi: nat)
    requires lo <= hi <= |s|
  {
    forall k :: lo <= k < hi ==> !IsBracket(s[k])
  }

  /** s[open..close + 1] matches the pattern. */
  predicate GroupAt(s: string, open: nat, close: nat) {
    && open < close < |s|
    && s[open] == '['
    && s[close] == ']'
    && NoBracketIn(s, open + 1, close)
  }

  /** Some match of the pattern starts at position `open`. */
  ghost predicate StartsGroup(s: string, open: nat) {
    exists close :: GroupAt(s, open, close)
  }

  /** The input contains some match of the pattern. */
  ghost predicate HasGroup(s: string) {
    exists open, close :: GroupAt(s, open, close)
  }

  /** s[open..close + 1] is a match and no match starts further left. */
  ghost predicate IsLeftmost(s: string, open: nat, close: nat) {
    GroupAt(s, open, close) && forall p: nat :: p < open ==> !StartsGroup(s, p)
  }

  /** A match is determined by where it starts. */
  lemma GroupEndUnique(s: string, open: nat, c1: nat, c2: nat)
    requires GroupAt(s, open, c1) && GroupAt(s, open, c2)
    ensures c1 == c2
  {
  }

  /** The first position at or after `k` that holds a bracket, or |s| if there is none. */
  function NextBracket(s: string, k: nat): (r: nat)
    requires k <= |s|
    ensures k <= r <= |s|
    ensures NoBracketIn(s, k, r)
    ensures r < |s| ==> IsBracket(s[r])
    decreases |s| - k
  {
    if k == |s| || IsBracket(s[k]) then k else NextBracket(s, k + 1)
  }

  /** An opening `[` at `open` whose next bracket is not a `]` starts no match,
      and neither does any position strictly between it and that next bracket. */
  lemma NoMatchUpToNextBracket(s: string, open: nat, next: nat)
    requires open < |s| && s[open] == '['
    requires next == NextBracket(s, open + 1)
    requires !(next < |s| && s[next] == ']')
    ensures forall p: nat :: open <= p < next ==> !StartsGroup(s, p)
  {
    forall p: nat, c: nat | open <= p < next
      ensures !GroupAt(s, p, c)
    {
      if open < p {
        assert !IsBracket(s[p]);
      }
    }
  }

  /** The leftmost match that starts at or after position `i`. */
  function LeftmostFrom(s: string, i: nat): (r: Option<Group>)
    requires i <= |s|
    ensures r.Some? ==> i <= r.value.open && GroupAt(s, r.value.open, r.value.close)
    ensures r.Some? ==> forall p: nat :: i <= p < r.value.open ==> !StartsGroup(s, p)
    ensures r.None? ==> forall p: nat :: i <= p < |s| ==> !StartsGroup(s, p)
    decreases |s| - i
  {
    if i == |s| then None
    else if s[i] != '[' then LeftmostFrom(s, i + 1)
    else
      var next := NextBracket(s, i + 1);
      if next < |s| && s[next] == ']' then Some(Group(i, next))
      else NoMatchUpToNextBracket(s, i, next); LeftmostFrom(s, next)
  }

  /** Go's `FindString` for the pattern `\[([^\[\]]*)\]`. */
  function FindString(s: string): (r: string)
    ensures r == "" <==> !HasGroup(s)
    ensures r != "" ==> exists open: nat, close: nat :: IsLeftmost(s, open, close) && r == s[open..close + 1]
    ensures r != "" ==> 2 <= |r| && r[0] == '[' && r[|r| - 1] == ']' && NoBracketIn(r, 1, |r| - 1)
  {
    match LeftmostFrom(s, 0)
    case None =>
      forall open: nat, close: nat
        ensures !GroupAt(s, open, close)
      {
        if open < |s| {
          assert !StartsGroup(s, open);
        }
      }
      ""
    case Some(g) =>
      var r := s[g.open..g.close + 1];
      assert IsLeftmost(s, g.open, g.close);
      assert forall k :: 1 <= k < |r| - 1 ==> r[k] == s[g.open + k];
      r
  }

  /** `FindString` returns the leftmost match, whichever way it was found. */
  lemma FindStringIsLeftmost(s: string, open: nat, close: nat)
    requires IsLeftmost(s, open, close)
    ensures FindString(s) == s[open..close + 1]
  {
    var r := FindString(s);
    assert HasGroup(s);
    var o: nat, c: nat :| IsLeftmost(s, o, c) && r == s[o..c + 1];
    assert StartsGroup(s, o) && StartsGroup(s, open);
    assert o == open;
    GroupEndUnique(s, open, c, close);
  }

  /** Text with no `[`, followed by a bracketed run without brackets: the run in
      its brackets is what `FindString` returns, whatever follows it. */
  lemma FindStringAfterPlainText(before: string, inside: string, after: string)
    requires '[' !in before
    requires forall c :: c in inside ==> !IsBracket(c)
    ensures FindString(before + "[" + inside + "]" + after) == "[" + inside + "]"
  {
    var s := before + "[" + inside + "]" + after;
    var open, close := |before|, |before| + |inside| + 1;
    assert forall k :: 0 <= k < open ==> s[k] == before[k];
    assert forall k :: open < k < close ==> s[k] == inside[k - open - 1];
    assert GroupAt(s, open, close);
    assert IsLeftmost(s, open, close);
    FindStringIsLeftmost(s, open, close);
    assert s[open..close + 1] == "[" + inside + "]";
  }
}
