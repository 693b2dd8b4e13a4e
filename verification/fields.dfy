/** Go's `strings.FieldsFunc(s, f)`: the string is cut around every run of
    characters satisfying `f`, and the non-empty pieces are returned in order.

    The implementation follows the library's own scan (a `start` index that is -1
    while no field is open, and a list of spans cut out at the end); the reference
    it is proved against says the pieces are exactly the maximal runs of
    non-separator characters, in increasing position. */
module Fields {

  /** The piece s[lo..hi]. */
  datatype Span = Span(lo: nat, hi: nat)

  /** s[sp.lo..sp.hi] is a non-empty, maximal run of characters that are not separators. */
  predicate IsRun(s: string, sep: char -> bool, sp: Span) {
    && sp.lo < sp.hi <= |s|
    && (forall k :: sp.lo <= k < sp.hi ==> !sep(s[k]))
    && (sp.lo == 0 || sep(s[sp.lo - 1]))
    && (sp.hi == |s| || sep(s[sp.hi]))
  }

  /** Each span ends strictly before the next one begins. */
  predicate Increasing(spans: seq<Span>) {
    forall a, b :: 0 <= a < b < |spans| ==> spans[a].hi < spans[b].lo
  }

  /** Position p lies inside one of the spans. */
  predicate Covered(spans: seq<Span>, p: nat) {
    exists a :: 0 <= a < |spans| && spans[a].lo <= p < spans[a].hi
  }

  /** The reference: `spans` lists every maximal run of non-separators of `s`,
      each once, from left to right. */
  predicate AllRuns(s: string, sep: char -> bool, spans: seq<Span>) {
    && (forall a :: 0 <= a < |spans| ==> IsRun(s, sep, spans[a]))
    && Increasing(spans)
    && (forall p: nat :: p < |s| && !sep(s[p]) ==> Covered(spans, p))
  }

  /** `spans` lists, from left to right, every run of `s` that begins at or after `from`. */
  predicate RunsFrom(s: string, sep: char -> bool, spans: seq<Span>, from: nat) {
    && (forall a :: 0 <= a < |spans| ==> IsRun(s, sep, spans[a]) && from <= spans[a].lo)
    && Increasing(spans)
    && (forall p: nat :: from <= p < |s| && !sep(s[p]) ==> Covered(spans, p))
  }

  /** A run followed by a separator, put in front of the runs after that separator,
      gives the runs from the start of the first one. */
  lemma PrependRun(s: string, sep: char -> bool, x: Span, rest: seq<Span>)
    requires IsRun(s, sep, x) && x.hi < |s|
    requires RunsFrom(s, sep, rest, x.hi + 1)
    ensures RunsFrom(s, sep, [x] + rest, x.lo)
  {
    var r := [x] + rest;
    forall p: nat | x.lo <= p < |s| && !sep(s[p])
      ensures Covered(r, p)
    {
      if p < x.hi {
        assert r[0].lo <= p < r[0].hi;
      } else {
        var a :| 0 <= a < |rest| && rest[a].lo <= p < rest[a].hi;
        assert r[a + 1] == rest[a];
      }
    }
  }

  /** A run that reaches the end of the string is the last one. */
  lemma LastRun(s: string, sep: char -> bool, x: Span)
    requires IsRun(s, sep, x) && x.hi == |s|
    ensures RunsFrom(s, sep, [x], x.lo)
  {
    forall p: nat | x.lo <= p < |s| && !sep(s[p])
      ensures Covered([x], p)
    {
      assert [x][0].lo <= p < [x][0].hi;
    }
  }

  /** The scan of `FieldsFunc` from position k on. `start` is the beginning of the
      field being read, or -1 when the previous character was a separator (or
      there is none). */
  function SpansFrom(s: string, sep: char -> bool, k: nat, start: int): (r: seq<Span>)
    requires k <= |s|
    requires start == -1 || 0 <= start < k
    requires start >= 0 ==> (start == 0 || sep(s[start - 1]))
    requires start >= 0 ==> forall q :: start <= q < k ==> !sep(s[q])
    requires start < 0 ==> k == 0 || sep(s[k - 1])
    ensures RunsFrom(s, sep, r, if start >= 0 then start else k)
    ensures start >= 0 ==> |r| > 0 && r[0].lo == start
    decreases |s| - k
  {
    if k == |s| then
      if start >= 0 then LastRun(s, sep, Span(start, k)); [Span(start, k)] else []
    else if sep(s[k]) then
      if start >= 0 then
        var rest := SpansFrom(s, sep, k + 1, -1);
        PrependRun(s, sep, Span(start, k), rest);
        [Span(start, k)] + rest
      else SpansFrom(s, sep, k + 1, -1)
    else if start < 0 then SpansFrom(s, sep, k + 1, k)
    else SpansFrom(s, sep, k + 1, start)
  }

  /** Go's `strings.FieldsFunc(s, sep)`. */
  function FieldsFunc(s: string, sep: char -> bool): (fields: seq<string>)
    ensures forall i :: 0 <= i < |fields| ==> |fields[i]| > 0
    ensures forall i, c :: 0 <= i < |fields| && c in fields[i] ==> !sep(c)
    ensures exists spans :: SplitsAs(s, sep, spans, fields)
    ensures fields == [] <==> forall k :: 0 <= k < |s| ==> sep(s[k])
  {
    var spans := SpansFrom(s, sep, 0, -1);
    var fields := seq(|spans|, i requires 0 <= i < |spans| => s[spans[i].lo..spans[i].hi]);
    assert SplitsAs(s, sep, spans, fields);
    assert |spans| > 0 ==> !sep(s[spans[0].lo]);
    fields
  }

  /** `fields` are the pieces of `s` cut out by `spans`, which are all the runs. */
  predicate SplitsAs(s: string, sep: char -> bool, spans: seq<Span>, fields: seq<string>) {
    && AllRuns(s, sep, spans)
    && |spans| == |fields|
    && forall i :: 0 <= i < |spans| ==> fields[i] == s[spans[i].lo..spans[i].hi]
  }

  /** Two runs that share a position are the same run. */
  lemma SameRun(s: string, sep: char -> bool, x: Span, y: Span, p: nat)
    requires IsRun(s, sep, x) && IsRun(s, sep, y)
    requires x.lo <= p < x.hi && y.lo <= p < y.hi
    ensures x == y
  {
  }

  /** In an increasing list of non-empty spans, the first span begins before every other. */
  lemma FirstBeginsFirst(a: seq<Span>, i: int)
    requires forall k :: 0 <= k < |a| ==> a[k].lo < a[k].hi
    requires Increasing(a)
    requires 0 < i < |a|
    ensures a[0].lo < a[i].lo
  {
  }

  /** Two increasing lists with the same members and the same first span have
      tails with the same members. */
  lemma SameMembersAfterFirst(a: seq<Span>, b: seq<Span>)
    requires forall i :: 0 <= i < |a| ==> a[i].lo < a[i].hi
    requires forall i :: 0 <= i < |b| ==> b[i].lo < b[i].hi
    requires Increasing(a) && Increasing(b)
    requires forall x :: x in a <==> x in b
    requires 0 < |a| && 0 < |b| && a[0] == b[0]
    ensures forall x :: x in a[1..] <==> x in b[1..]
  {
    forall x | x in a[1..]
      ensures x in b[1..]
    {
      var m :| 1 <= m < |a| && a[m] == x;
      FirstBeginsFirst(a, m);
      assert x in b && x != b[0];
      var n :| 0 <= n < |b| && b[n] == x;
      assert b[1..][n - 1] == x;
    }
    forall x | x in b[1..]
      ensures x in a[1..]
    {
      var m :| 1 <= m < |b| && b[m] == x;
      FirstBeginsFirst(b, m);
      assert x in a && x != a[0];
      var n :| 0 <= n < |a| && a[n] == x;
      assert a[1..][n - 1] == x;
    }
  }

  /** Two non-empty sequences with the same head and the same tail are equal. */
  lemma SameHeadSameTail<T>(a: seq<T>, b: seq<T>)
    requires 0 < |a| && 0 < |b| && a[0] == b[0] && a[1..] == b[1..]
    ensures a == b
  {
    assert a == [a[0]] + a[1..];
    assert b == [b[0]] + b[1..];
  }

  /** Two increasing lists of non-empty spans with the same members are equal. */
  lemma {:induction false} IncreasingSameMembers(a: seq<Span>, b: seq<Span>)
    requires forall i :: 0 <= i < |a| ==> a[i].lo < a[i].hi
    requires forall i :: 0 <= i < |b| ==> b[i].lo < b[i].hi
    requires Increasing(a) && Increasing(b)
    requires forall x :: x in a <==> x in b
    ensures a == b
    decreases |a|
  {
    assert |a| > 0 ==> a[0] in b;
    assert |b| > 0 ==> b[0] in a;
    if |a| > 0 {
      var i :| 0 <= i < |a| && a[i] == b[0];
      var j :| 0 <= j < |b| && b[j] == a[0];
      if i > 0 {
        FirstBeginsFirst(a, i);
      }
      if j > 0 {
        FirstBeginsFirst(b, j);
      }
      assert a[0] == b[0];
      SameMembersAfterFirst(a, b);
      IncreasingSameMembers(a[1..], b[1..]);
      SameHeadSameTail(a, b);
    }
  }

  /** Every run of one complete list of runs is in any other. */
  lemma RunsIncluded(s: string, sep: char -> bool, a: seq<Span>, b: seq<Span>)
    requires AllRuns(s, sep, a) && AllRuns(s, sep, b)
    ensures forall x :: x in a ==> x in b
  {
    forall x | x in a
      ensures x in b
    {
      var i :| 0 <= i < |a| && a[i] == x;
      assert Covered(b, x.lo);
      var j :| 0 <= j < |b| && b[j].lo <= x.lo < b[j].hi;
      SameRun(s, sep, x, b[j], x.lo);
    }
  }

  /** The reference determines the runs: there is only one list of all runs. */
  lemma AllRunsUnique(s: string, sep: char -> bool, a: seq<Span>, b: seq<Span>)
    requires AllRuns(s, sep, a) && AllRuns(s, sep, b)
    ensures a == b
  {
    RunsIncluded(s, sep, a, b);
    RunsIncluded(s, sep, b, a);
    IncreasingSameMembers(a, b);
  }

  /** `FieldsFunc` returns exactly the pieces cut out by the runs of non-separators:
      any list of fields that the runs cut out is its result, and its result is one. */
  lemma FieldsFuncIsRuns(s: string, sep: char -> bool, fields: seq<string>)
    ensures fields == FieldsFunc(s, sep) <==> exists spans :: SplitsAs(s, sep, spans, fields)
  {
    var f := FieldsFunc(s, sep);
    var spansF :| SplitsAs(s, sep, spansF, f);
    if spans :| SplitsAs(s, sep, spans, fields) {
      AllRunsUnique(s, sep, spans, spansF);
      assert fields == f;
    }
  }
}
