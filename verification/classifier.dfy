/** The classification of the lines printed by `aurora job diff`: one pass over
    the lines, each of which updates the job's record.

    For every line, in this order:
    - a line starting with the header "This job update will:" sets `foundHeader`;
    - then a line starting with "remove instances:" or "add instances:" marks the
      job dirty and stores the line's first bracket group in `remove` or `add`;
      one starting with "update instances:" stores it in `update` and leaves
      `dirty` alone; these checks run whether or not the header has been seen;
    - any other line read while `foundHeader` is still false is kept in `diff`
      and marks the job dirty.

    `Classify` is that pass as a fold; `ClassifyLines` is the loop as written.
    The lemmas give the result of the fold without reference to the fold: by
    which line set each field, and which lines were kept. */
module Classifier {
  import opened Brackets
  import opened Jobs

  const Header := "This job update will:"
  const RemovePrefix := "remove instances:"
  const AddPrefix := "add instances:"
  const UpdatePrefix := "update instances:"

  predicate IsHeader(line: string) { Header <= line }
  predicate IsRemove(line: string) { RemovePrefix <= line }
  predicate IsAdd(line: string) { AddPrefix <= line }
  predicate IsUpdate(line: string) { UpdatePrefix <= line }

  /** A line that names instances, and so is never kept in `diff`. */
  predicate IsInstanceLine(line: string) {
    IsRemove(line) || IsAdd(line) || IsUpdate(line)
  }

  /** A line that marks the job dirty wherever it occurs. */
  predicate IsChange(line: string) {
    IsRemove(line) || IsAdd(line)
  }

  /** The four prefixes begin with different characters, so a line has at most one. */
  lemma PrefixesExclusive(line: string)
    ensures IsHeader(line) ==> !IsInstanceLine(line)
    ensures IsRemove(line) ==> !IsAdd(line) && !IsUpdate(line)
    ensures IsAdd(line) ==> !IsUpdate(line)
  {
    if |line| > 0 {
      assert IsHeader(line) ==> line[0] == Header[0] == 'T';
      assert IsRemove(line) ==> line[0] == RemovePrefix[0] == 'r';
      assert IsAdd(line) ==> line[0] == AddPrefix[0] == 'a';
      assert IsUpdate(line) ==> line[0] == UpdatePrefix[0] == 'u';
    }
  }

  /** The effect of one line on the record. */
  function Step(j: JobUpdate, line: string): (r: JobUpdate)
    ensures r.job == j.job && r.jobIndex == j.jobIndex
    ensures j.foundHeader ==> r.foundHeader
    ensures j.dirty ==> r.dirty
    ensures j.diff <= r.diff && |r.diff| <= |j.diff| + 1
  {
    var j := j.(foundHeader := j.foundHeader || IsHeader(line));
    if IsRemove(line) then j.(dirty := true, remove := FindString(line))
    else if IsAdd(line) then j.(dirty := true, add := FindString(line))
    else if IsUpdate(line) then j.(update := FindString(line))
    else if !j.foundHeader then j.(diff := j.diff + [line], dirty := true)
    else j
  }

  /** The line a step keeps in `diff`, if any, and the header flag it leaves. */
  lemma StepKeeps(j: JobUpdate, line: string)
    ensures Step(j, line).foundHeader == (j.foundHeader || IsHeader(line))
    ensures Step(j, line).diff ==
      j.diff + (if j.foundHeader || IsHeader(line) || IsInstanceLine(line) then [] else [line])
  {
  }

  /** The range fields a step writes: each is set from the line exactly when the
      line has that field's prefix. */
  lemma StepRanges(j: JobUpdate, line: string)
    ensures Step(j, line).remove == if IsRemove(line) then FindString(line) else j.remove
    ensures Step(j, line).add == if IsAdd(line) then FindString(line) else j.add
    ensures Step(j, line).update == if IsUpdate(line) then FindString(line) else j.update
  {
    PrefixesExclusive(line);
  }

  /** The record after reading `lines` in order, starting from `j`. */
  function Classify(j: JobUpdate, lines: seq<string>): (r: JobUpdate)
    ensures r.job == j.job && r.jobIndex == j.jobIndex
    ensures j.foundHeader ==> r.foundHeader
    ensures j.dirty ==> r.dirty
    ensures j.diff <= r.diff && |r.diff| <= |j.diff| + |lines|
    decreases |lines|
  {
    if lines == [] then j else Classify(Step(j, lines[0]), lines[1..])
  }

  /** The position of the first header line, or |lines| if there is none. */
  function FirstHeader(lines: seq<string>): (r: nat)
    ensures r <= |lines|
    ensures forall k :: 0 <= k < r ==> !IsHeader(lines[k])
    ensures r < |lines| ==> IsHeader(lines[r])
  {
    if lines == [] || IsHeader(lines[0]) then 0 else 1 + FirstHeader(lines[1..])
  }

  /** The lines of `lines` that are not instance lines, in order. */
  function Uninterpreted(lines: seq<string>): (r: seq<string>)
    ensures |r| <= |lines|
    ensures forall x :: x in r ==> x in lines && !IsInstanceLine(x)
    ensures forall x :: x in lines && !IsInstanceLine(x) ==> x in r
  {
    if lines == [] then []
    else (if IsInstanceLine(lines[0]) then [] else [lines[0]]) + Uninterpreted(lines[1..])
  }

  /** The lines kept as raw diff: those before the first header that are not
      instance lines. */
  function Preamble(lines: seq<string>): seq<string> {
    Uninterpreted(lines[..FirstHeader(lines)])
  }

  /** Line k is the last line of `lines` that `has`. */
  ghost predicate IsLast(lines: seq<string>, has: string -> bool, k: int) {
    0 <= k < |lines| && has(lines[k]) && forall m :: k < m < |lines| ==> !has(lines[m])
  }

  /** A range field after the scan: the first bracket group of the last line with
      that field's prefix, or the field's previous value if no line has it. */
  ghost predicate LastWriteWins(lines: seq<string>, has: string -> bool, before: string, after: string) {
    && (forall k :: IsLast(lines, has, k) ==> after == FindString(lines[k]))
    && ((forall k :: 0 <= k < |lines| ==> !has(lines[k])) ==> after == before)
  }

  /** When some line has the prefix, one of them is the last. */
  lemma {:induction false} LastExists(lines: seq<string>, has: string -> bool)
    requires exists k :: 0 <= k < |lines| && has(lines[k])
    ensures exists k :: IsLast(lines, has, k)
    decreases |lines|
  {
    var n := |lines| - 1;
    if has(lines[n]) {
      assert IsLast(lines, has, n);
    } else {
      var front := lines[..n];
      var w :| 0 <= w < |lines| && has(lines[w]);
      assert has(front[w]);
      LastExists(front, has);
      var k :| IsLast(front, has, k);
      assert IsLast(lines, has, k);
    }
  }

  /** `LastWriteWins` determines the field: two values that both satisfy it are equal. */
  lemma LastWriteWinsUnique(lines: seq<string>, has: string -> bool, before: string, x: string, y: string)
    requires LastWriteWins(lines, has, before, x)
    requires LastWriteWins(lines, has, before, y)
    ensures x == y
  {
    if exists k :: 0 <= k < |lines| && has(lines[k]) {
      LastExists(lines, has);
      var k :| IsLast(lines, has, k);
      assert x == FindString(lines[k]) == y;
    }
  }

  /** Reading one more line in front: if that line has the prefix it sets the
      field, and the lines after it may overwrite it. */
  lemma LastWriteWinsCons(line: string, rest: seq<string>, has: string -> bool, before: string, mid: string, after: string)
    requires has(line) ==> mid == FindString(line)
    requires !has(line) ==> mid == before
    requires LastWriteWins(rest, has, mid, after)
    ensures LastWriteWins([line] + rest, has, before, after)
  {
    var lines := [line] + rest;
    assert forall m :: 0 <= m < |rest| ==> lines[m + 1] == rest[m];
    forall k | IsLast(lines, has, k)
      ensures after == FindString(lines[k])
    {
      if k > 0 {
        assert IsLast(rest, has, k - 1);
      }
    }
    if forall k :: 0 <= k < |lines| ==> !has(lines[k]) {
      assert !has(lines[0]);
      assert forall m :: 0 <= m < |rest| ==> !has(rest[m]);
    }
  }

  /** `foundHeader` ends up true exactly when it started true or some line is a header. */
  lemma {:induction false} ClassifyFoundHeader(j: JobUpdate, lines: seq<string>)
    ensures Classify(j, lines).foundHeader <==>
      j.foundHeader || exists k :: 0 <= k < |lines| && IsHeader(lines[k])
    decreases |lines|
  {
    if lines != [] {
      var rest := lines[1..];
      ClassifyFoundHeader(Step(j, lines[0]), rest);
      assert forall m :: 0 <= m < |rest| ==> lines[m + 1] == rest[m];
    }
  }

  /** The preamble of a list that does not start with a header line. */
  lemma PreambleCons(lines: seq<string>)
    requires lines != [] && !IsHeader(lines[0])
    ensures Preamble(lines) == (if IsInstanceLine(lines[0]) then [] else [lines[0]]) + Preamble(lines[1..])
  {
    var rest := lines[1..];
    assert lines[..FirstHeader(lines)] == [lines[0]] + rest[..FirstHeader(rest)];
    assert ([lines[0]] + rest[..FirstHeader(rest)])[1..] == rest[..FirstHeader(rest)];
  }

  /** Sequence concatenation is associative; stated once so that the proofs
      using it stay cheap. */
  lemma AppendAssoc<T>(a: seq<T>, b: seq<T>, c: seq<T>)
    ensures (a + b) + c == a + (b + c)
  {
  }

  /** `diff` gains exactly the preamble, in order, unless the header was already seen. */
  lemma {:induction false} ClassifyDiff(j: JobUpdate, lines: seq<string>)
    ensures Classify(j, lines).diff == j.diff + (if j.foundHeader then [] else Preamble(lines))
    decreases |lines|
  {
    if lines == [] {
      assert j.diff + [] == j.diff;
    } else {
      var line, rest := lines[0], lines[1..];
      var j' := Step(j, line);
      assert Classify(j, lines) == Classify(j', rest);
      ClassifyDiff(j', rest);
      StepKeeps(j, line);
      if j.foundHeader {
        assert j.diff + [] == j.diff;
      } else if IsHeader(line) {
        assert FirstHeader(lines) == 0;
        assert Preamble(lines) == [];
        assert j.diff + [] == j.diff;
      } else {
        var kept := if IsInstanceLine(line) then [] else [line];
        PreambleCons(lines);
        AppendAssoc(j.diff, kept, Preamble(rest));
      }
    }
  }

  /** `dirty` ends up true exactly when it started true, or some line is a remove
      or add line, or the preamble was kept. */
  lemma {:induction false} ClassifyDirty(j: JobUpdate, lines: seq<string>)
    ensures Classify(j, lines).dirty <==>
      || j.dirty
      || (exists k :: 0 <= k < |lines| && IsChange(lines[k]))
      || (!j.foundHeader && Preamble(lines) != [])
    decreases |lines|
  {
    if lines != [] {
      var line, rest := lines[0], lines[1..];
      ClassifyDirty(Step(j, line), rest);
      assert forall m :: 0 <= m < |rest| ==> lines[m + 1] == rest[m];
      PrefixesExclusive(line);
      if !IsHeader(line) {
        PreambleCons(lines);
      }
    }
  }

  /** `remove` is set by the last remove line and kept if there is none. */
  lemma {:induction false} ClassifyRemove(j: JobUpdate, lines: seq<string>)
    ensures LastWriteWins(lines, IsRemove, j.remove, Classify(j, lines).remove)
    decreases |lines|
  {
    if lines != [] {
      var line, rest := lines[0], lines[1..];
      var j' := Step(j, line);
      ClassifyRemove(j', rest);
      assert lines == [line] + rest;
      StepRanges(j, line);
      LastWriteWinsCons(line, rest, IsRemove, j.remove, j'.remove, Classify(j', rest).remove);
    }
  }

  /** `add` is set by the last add line and kept if there is none. */
  lemma {:induction false} ClassifyAdd(j: JobUpdate, lines: seq<string>)
    ensures LastWriteWins(lines, IsAdd, j.add, Classify(j, lines).add)
    decreases |lines|
  {
    if lines != [] {
      var line, rest := lines[0], lines[1..];
      var j' := Step(j, line);
      ClassifyAdd(j', rest);
      assert lines == [line] + rest;
      StepRanges(j, line);
      LastWriteWinsCons(line, rest, IsAdd, j.add, j'.add, Classify(j', rest).add);
    }
  }

  /** `update` is set by the last update line and kept if there is none. */
  lemma {:induction false} ClassifyUpdate(j: JobUpdate, lines: seq<string>)
    ensures LastWriteWins(lines, IsUpdate, j.update, Classify(j, lines).update)
    decreases |lines|
  {
    if lines != [] {
      var line, rest := lines[0], lines[1..];
      var j' := Step(j, line);
      ClassifyUpdate(j', rest);
      assert lines == [line] + rest;
      StepRanges(j, line);
      LastWriteWinsCons(line, rest, IsUpdate, j.update, j'.update, Classify(j', rest).update);
    }
  }

  /** Each range field is set by the last line with its prefix and kept otherwise. */
  lemma ClassifyRanges(j: JobUpdate, lines: seq<string>)
    ensures LastWriteWins(lines, IsRemove, j.remove, Classify(j, lines).remove)
    ensures LastWriteWins(lines, IsAdd, j.add, Classify(j, lines).add)
    ensures LastWriteWins(lines, IsUpdate, j.update, Classify(j, lines).update)
  {
    ClassifyRemove(j, lines);
    ClassifyAdd(j, lines);
    ClassifyUpdate(j, lines);
  }

  /** Classifying `p` and then `q` is classifying `p + q`: the scan has no state
      besides the record. */
  lemma {:induction false} ClassifyAppend(j: JobUpdate, p: seq<string>, q: seq<string>)
    ensures Classify(j, p + q) == Classify(Classify(j, p), q)
    decreases |p|
  {
    if p != [] {
      assert p + q != [];
      assert (p + q)[0] == p[0];
      assert (p + q)[1..] == p[1..] + q;
      ClassifyAppend(Step(j, p[0]), p[1..], q);
    } else {
      assert p + q == q;
    }
  }

  /** Once set, `foundHeader` stays set: whatever follows a prefix of the lines
      that set it leaves it set. */
  lemma FoundHeaderMonotone(j: JobUpdate, p: seq<string>, q: seq<string>)
    requires Classify(j, p).foundHeader
    ensures Classify(j, p + q).foundHeader
  {
    ClassifyAppend(j, p, q);
    ClassifyFoundHeader(Classify(j, p), q);
  }

  /** The scan of a new job's diff, stated without the scan. */
  lemma ClassifyNew(job: string, jobIndex: nat, lines: seq<string>)
    ensures Classify(NewJobUpdate(job, jobIndex), lines).job == job
    ensures Classify(NewJobUpdate(job, jobIndex), lines).jobIndex == jobIndex
    ensures Classify(NewJobUpdate(job, jobIndex), lines).foundHeader <==>
      exists k :: 0 <= k < |lines| && IsHeader(lines[k])
    ensures Classify(NewJobUpdate(job, jobIndex), lines).diff == Preamble(lines)
    ensures Classify(NewJobUpdate(job, jobIndex), lines).dirty <==>
      (exists k :: 0 <= k < |lines| && IsChange(lines[k])) || Preamble(lines) != []
    ensures LastWriteWins(lines, IsRemove, "", Classify(NewJobUpdate(job, jobIndex), lines).remove)
    ensures LastWriteWins(lines, IsAdd, "", Classify(NewJobUpdate(job, jobIndex), lines).add)
    ensures LastWriteWins(lines, IsUpdate, "", Classify(NewJobUpdate(job, jobIndex), lines).update)
  {
    var j := NewJobUpdate(job, jobIndex);
    ClassifyFoundHeader(j, lines);
    ClassifyDiff(j, lines);
    ClassifyDirty(j, lines);
    ClassifyRanges(j, lines);
  }

  /** The lines kept in `diff` are lines of the input read before any header, and
      none of them is a header or instance line. */
  lemma PreambleLines(lines: seq<string>)
    ensures forall x :: x in Preamble(lines) ==>
      x in lines[..FirstHeader(lines)] && !IsHeader(x) && !IsInstanceLine(x)
  {
  }

  /** A new job's record is dirty whenever it holds a remove or add range or
      kept diff lines. */
  lemma DirtyCoversRanges(job: string, jobIndex: nat, lines: seq<string>)
    ensures var r := Classify(NewJobUpdate(job, jobIndex), lines);
      r.remove != "" || r.add != "" || r.diff != [] ==> r.dirty
  {
    var r := Classify(NewJobUpdate(job, jobIndex), lines);
    ClassifyNew(job, jobIndex, lines);
    if r.remove != "" {
      assert exists k :: 0 <= k < |lines| && IsRemove(lines[k]);
    }
    if r.add != "" {
      assert exists k :: 0 <= k < |lines| && IsAdd(lines[k]);
    }
  }

  /** A diff made only of header and `update instances:` lines leaves a new job
      clean, however many instances the update lines name. */
  lemma UpdateOnlyStaysClean(job: string, jobIndex: nat, lines: seq<string>)
    requires forall k :: 0 <= k < |lines| ==> IsHeader(lines[k]) || IsUpdate(lines[k])
    ensures !Classify(NewJobUpdate(job, jobIndex), lines).dirty
    ensures Classify(NewJobUpdate(job, jobIndex), lines).diff == []
  {
    var j := NewJobUpdate(job, jobIndex);
    ClassifyDiff(j, lines);
    ClassifyDirty(j, lines);
    NoChangeAmongHeadersAndUpdates(lines);
    NothingToKeep(lines);
  }

  /** Header and update lines neither remove nor add instances. */
  lemma NoChangeAmongHeadersAndUpdates(lines: seq<string>)
    requires forall k :: 0 <= k < |lines| ==> IsHeader(lines[k]) || IsUpdate(lines[k])
    ensures forall k :: 0 <= k < |lines| ==> !IsChange(lines[k])
  {
    forall k | 0 <= k < |lines|
      ensures !IsChange(lines[k])
    {
      PrefixesExclusive(lines[k]);
    }
  }

  /** With only instance lines before the first header, nothing is kept. */
  lemma NothingToKeep(lines: seq<string>)
    requires forall k :: 0 <= k < FirstHeader(lines) ==> IsInstanceLine(lines[k])
    ensures Preamble(lines) == []
  {
    UninterpretedEmpty(lines[..FirstHeader(lines)]);
  }

  lemma {:induction false} UninterpretedEmpty(xs: seq<string>)
    requires forall k :: 0 <= k < |xs| ==> IsInstanceLine(xs[k])
    ensures Uninterpreted(xs) == []
    decreases |xs|
  {
    if xs != [] {
      UninterpretedEmpty(xs[1..]);
    }
  }

  /** Two jobs with the same diff get the same classification; only the name and
      index, which the caller supplies, differ. */
  lemma ClassifyIgnoresIdentity(a: string, i: nat, b: string, k: nat, lines: seq<string>)
    ensures var x, y := Classify(NewJobUpdate(a, i), lines), Classify(NewJobUpdate(b, k), lines);
      x.(job := b, jobIndex := k) == y
  {
    ClassifyIgnoresIdentityFrom(NewJobUpdate(a, i), NewJobUpdate(b, k), lines);
  }

  lemma {:induction false} ClassifyIgnoresIdentityFrom(x: JobUpdate, y: JobUpdate, lines: seq<string>)
    requires x.(job := y.job, jobIndex := y.jobIndex) == y
    ensures Classify(x, lines).(job := y.job, jobIndex := y.jobIndex) == Classify(y, lines)
    decreases |lines|
  {
    if lines != [] {
      ClassifyIgnoresIdentityFrom(Step(x, lines[0]), Step(y, lines[0]), lines[1..]);
    }
  }

  /** The loop of the status command, line by line, as written. */
  method ClassifyLines(start: JobUpdate, lines: seq<string>) returns (j: JobUpdate)
    ensures j == Classify(start, lines)
    ensures j.job == start.job && j.jobIndex == start.jobIndex
    ensures j.foundHeader <==> start.foundHeader || exists k :: 0 <= k < |lines| && IsHeader(lines[k])
    ensures j.diff == start.diff + (if start.foundHeader then [] else Preamble(lines))
    ensures j.dirty <==>
      || start.dirty
      || (exists k :: 0 <= k < |lines| && IsChange(lines[k]))
      || (!start.foundHeader && Preamble(lines) != [])
    ensures LastWriteWins(lines, IsRemove, start.remove, j.remove)
    ensures LastWriteWins(lines, IsAdd, start.add, j.add)
    ensures LastWriteWins(lines, IsUpdate, start.update, j.update)
  {
    j := start;
    var l := 0;
    while l < |lines|
      invariant l <= |lines|
      invariant Classify(j, lines[l..]) == Classify(start, lines)
    {
      var text := lines[l];
      if Header <= text {
        j := j.(foundHeader := true);
      }
      if RemovePrefix <= text {
        j := j.(dirty := true, remove := FindString(text));
      } else if AddPrefix <= text {
        j := j.(dirty := true, add := FindString(text));
      } else if UpdatePrefix <= text {
        j := j.(update := FindString(text));
      } else if !j.foundHeader {
        j := j.(diff := j.diff + [text], dirty := true);
      }
      assert lines[l..][1..] == lines[l + 1..];
      l := l + 1;
    }
    ClassifyFoundHeader(start, lines);
    ClassifyDiff(start, lines);
    ClassifyDirty(start, lines);
    ClassifyRanges(start, lines);
  }
}
