/** Worked cases: outputs of `aurora config list` and `aurora job diff` of the
    shapes the status command expects, with the records derived from them. */
module Examples {
  import opened Brackets
  import opened Fields
  import opened Jobs
  import opened Classifier

  /** In `[a[b]` the second `[` starts the leftmost match: the first one is
      closed by no `]` before the next `[`. */
  lemma UnclosedThenGroup(a: string, b: string, s: string)
    requires forall c :: c in a ==> !IsBracket(c)
    requires forall c :: c in b ==> !IsBracket(c)
    requires s == "[" + a + "[" + b + "]"
    ensures IsLeftmost(s, |a| + 1, |a| + |b| + 2)
    ensures s[|a| + 1..] == "[" + b + "]"
  {
    var open, close := |a| + 1, |a| + |b| + 2;
    assert forall k :: 0 < k < open ==> s[k] == a[k - 1];
    assert forall k :: open < k < close ==> s[k] == b[k - open - 1];
    assert NextBracket(s, 1) == open by {
      assert NoBracketIn(s, 1, open) && IsBracket(s[open]);
    }
    NoMatchUpToNextBracket(s, 0, open);
    assert GroupAt(s, open, close);
    assert forall k :: open <= k < |s| ==> s[k] == ("[" + b + "]")[k - open];
  }

  /** The leftmost match need not begin at the first `[`: in `[a[b]` the first
      `[` is never closed, and the match is `[b]`. */
  lemma LeftmostMatchSkipsUnclosedBracket(a: string, b: string, s: string)
    requires forall c :: c in a ==> !IsBracket(c)
    requires forall c :: c in b ==> !IsBracket(c)
    requires s == "[" + a + "[" + b + "]"
    ensures FindString(s) == "[" + b + "]"
  {
    var open, close := |a| + 1, |a| + |b| + 2;
    UnclosedThenGroup(a, b, s);
    FindStringIsLeftmost(s, open, close);
    assert s[open..close + 1] == s[open..];
  }

  /** Output without any `[` names no job. */
  lemma NoJobListNoJobs(output: string)
    requires '[' !in output
    ensures EnumerateJobs(output) == []
  {
  }

  /** Where the characters of a two-name job list sit. */
  lemma TwoNameGroupChars(a: string, b: string, g: string)
    requires g == "[" + a + ", " + b + "]"
    ensures |g| == |a| + |b| + 4
    ensures g[0] == '[' && g[|a| + 1] == ',' && g[|a| + 2] == ' ' && g[|g| - 1] == ']'
    ensures forall k :: 0 <= k < |a| ==> g[1 + k] == a[k]
    ensures forall k :: 0 <= k < |b| ==> g[|a| + 3 + k] == b[k]
  {
  }

  /** A piece of `g` that agrees with `x` character by character is `x`. */
  lemma SliceIs(g: string, lo: nat, x: string)
    requires lo + |x| <= |g|
    requires forall k :: 0 <= k < |x| ==> g[lo + k] == x[k]
    ensures g[lo..lo + |x|] == x
  {
  }

  /** A non-empty name without separators, enclosed by separators, is a run. */
  lemma NameIsRun(g: string, lo: nat, x: string)
    requires |x| > 0 && 0 < lo && lo + |x| < |g|
    requires forall c :: c in x ==> !IsJobSeparator(c)
    requires forall k :: 0 <= k < |x| ==> g[lo + k] == x[k]
    requires IsJobSeparator(g[lo - 1]) && IsJobSeparator(g[lo + |x|])
    ensures IsRun(g, IsJobSeparator, Span(lo, lo + |x|))
    ensures g[lo..lo + |x|] == x
  {
    forall k | lo <= k < lo + |x|
      ensures !IsJobSeparator(g[k])
    {
      assert g[k] == x[k - lo];
    }
    SliceIs(g, lo, x);
  }

  /** Two runs with nothing but separators around them are all the runs. */
  lemma TwoRunsAreAll(g: string, x: Span, y: Span)
    requires IsRun(g, IsJobSeparator, x) && IsRun(g, IsJobSeparator, y) && x.hi < y.lo
    requires forall p :: 0 <= p < |g| && (p < x.lo || x.hi <= p < y.lo || y.hi <= p) ==>
      IsJobSeparator(g[p])
    ensures AllRuns(g, IsJobSeparator, [x, y])
  {
    var spans := [x, y];
    forall p: nat | p < |g| && !IsJobSeparator(g[p])
      ensures Covered(spans, p)
    {
      if p < x.hi {
        assert spans[0].lo <= p < spans[0].hi;
      } else {
        assert spans[1].lo <= p < spans[1].hi;
      }
    }
  }

  /** The names of a two-name job list are runs, and the rest is separators. */
  lemma TwoNameGroupParts(a: string, b: string, g: string)
    requires |a| > 0 && |b| > 0
    requires forall c :: c in a ==> !IsJobSeparator(c)
    requires forall c :: c in b ==> !IsJobSeparator(c)
    requires g == "[" + a + ", " + b + "]"
    ensures IsRun(g, IsJobSeparator, Span(1, 1 + |a|)) && g[1..1 + |a|] == a
    ensures IsRun(g, IsJobSeparator, Span(|a| + 3, |a| + 3 + |b|)) && g[|a| + 3..|a| + 3 + |b|] == b
    ensures forall p :: 0 <= p < |g| && (p < 1 || 1 + |a| <= p < |a| + 3 || |a| + 3 + |b| <= p) ==>
      IsJobSeparator(g[p])
  {
    TwoNameGroupChars(a, b, g);
    NameIsRun(g, 1, a);
    NameIsRun(g, |a| + 3, b);
  }

  /** The bracket group of a list of two job names: its runs are the two names. */
  lemma TwoNameGroupRuns(a: string, b: string, g: string)
    requires |a| > 0 && |b| > 0
    requires forall c :: c in a ==> !IsJobSeparator(c)
    requires forall c :: c in b ==> !IsJobSeparator(c)
    requires g == "[" + a + ", " + b + "]"
    ensures SplitsAs(g, IsJobSeparator, [Span(1, 1 + |a|), Span(|a| + 3, |a| + 3 + |b|)], [a, b])
  {
    TwoNameGroupParts(a, b, g);
    TwoRunsAreAll(g, Span(1, 1 + |a|), Span(|a| + 3, |a| + 3 + |b|));
  }

  /** The comma-and-space-joined names hold no bracket. */
  lemma JoinedNamesPlain(a: string, b: string)
    requires forall c :: c in a ==> !IsJobSeparator(c)
    requires forall c :: c in b ==> !IsJobSeparator(c)
    ensures forall c :: c in a + ", " + b ==> !IsBracket(c)
  {
    var inside := a + ", " + b;
    forall c | c in inside
      ensures !IsBracket(c)
    {
      var k :| 0 <= k < |inside| && inside[k] == c;
      if k < |a| {
        assert inside[k] == a[k];
      } else if k >= |a| + 2 {
        assert inside[k] == b[k - |a| - 2];
      }
    }
  }

  /** The bracket group of a job list is the first match in the output. */
  lemma JobListGroup(before: string, a: string, b: string, output: string, g: string)
    requires '[' !in before
    requires forall c :: c in a ==> !IsJobSeparator(c)
    requires forall c :: c in b ==> !IsJobSeparator(c)
    requires output == before + "[" + a + ", " + b + "]" && g == "[" + a + ", " + b + "]"
    ensures FindString(output) == g
  {
    var inside := a + ", " + b;
    JoinedNamesPlain(a, b);
    FindStringAfterPlainText(before, inside, "");
    JobListShape(before, a, b, output, g);
  }

  /** The job list regrouped around the text between its brackets. */
  lemma JobListShape(before: string, a: string, b: string, output: string, g: string)
    requires output == before + "[" + a + ", " + b + "]" && g == "[" + a + ", " + b + "]"
    ensures before + "[" + (a + ", " + b) + "]" + "" == output
    ensures "[" + (a + ", " + b) + "]" == g
  {
    assert "[" + (a + ", " + b) == "[" + a + ", " + b;
  }

  /** The names of a job list of two names are the two names; the text before the
      bracket group is dropped. */
  lemma TwoNameList(before: string, a: string, b: string, output: string)
    requires '[' !in before
    requires |a| > 0 && |b| > 0
    requires forall c :: c in a ==> !IsJobSeparator(c)
    requires forall c :: c in b ==> !IsJobSeparator(c)
    requires output == before + "[" + a + ", " + b + "]"
    ensures EnumerateJobs(output) == [a, b]
  {
    var g := "[" + a + ", " + b + "]";
    JobListGroup(before, a, b, output, g);
    TwoNameGroupRuns(a, b, g);
    EnumerateJobsSplitsFirstGroup(output, [a, b]);
  }

  /** The job list of `aurora config list` is split at the comma and the space.
      This is the concrete case of `TwoNameList`; the output is a parameter so
      that the proof can name its parts. */
  lemma JobListIsSplit(output: string)
    requires output == "jobs=[foo/bar/a, foo/bar/b]"
    ensures EnumerateJobs(output) == ["foo/bar/a", "foo/bar/b"]
  {
    var before, a, b := "jobs=", "foo/bar/a", "foo/bar/b";
    assert output == before + "[" + a + ", " + b + "]";
    TwoNameList(before, a, b, output);
  }

  /** A line that begins with none of the letters the three prefixes begin with
      names no instances. */
  lemma PlainLine(line: string)
    requires |line| == 0 || (line[0] != 'r' && line[0] != 'a' && line[0] != 'u')
    ensures !IsInstanceLine(line)
  {
    assert RemovePrefix[0] == 'r' && AddPrefix[0] == 'a' && UpdatePrefix[0] == 'u';
  }

  lemma HeaderLine(line: string)
    requires line == Header
    ensures IsHeader(line) && !IsInstanceLine(line)
  {
    PrefixesExclusive(line);
  }

  /** A prefix, a space and a bracket group: the group is the line's range. */
  lemma RangeLine(prefix: string, inside: string, line: string)
    requires '[' !in prefix
    requires forall c :: c in inside ==> !IsBracket(c)
    requires line == prefix + " [" + inside + "]"
    ensures prefix <= line
    ensures FindString(line) == "[" + inside + "]"
  {
    var before := prefix + " ";
    assert '[' !in before;
    FindStringAfterPlainText(before, inside, "");
    assert before + "[" + inside + "]" + "" == line;
    assert line[..|prefix|] == prefix;
  }

  /** An `add instances:` line with a bracketed range. */
  lemma AddLine(line: string, range: string)
    requires forall c :: c in range ==> !IsBracket(c)
    requires line == AddPrefix + " [" + range + "]"
    ensures IsAdd(line) && !IsRemove(line) && !IsUpdate(line) && !IsHeader(line)
    ensures FindString(line) == "[" + range + "]"
  {
    RangeLine(AddPrefix, range, line);
    PrefixesExclusive(line);
  }

  /** A `remove instances:` line with a bracketed range. */
  lemma RemoveLine(line: string, range: string)
    requires forall c :: c in range ==> !IsBracket(c)
    requires line == RemovePrefix + " [" + range + "]"
    ensures IsRemove(line) && !IsAdd(line) && !IsUpdate(line) && !IsHeader(line)
    ensures FindString(line) == "[" + range + "]"
  {
    RangeLine(RemovePrefix, range, line);
    PrefixesExclusive(line);
  }

  /** An `update instances:` line with a bracketed range. */
  lemma UpdateLine(line: string, range: string)
    requires forall c :: c in range ==> !IsBracket(c)
    requires line == UpdatePrefix + " [" + range + "]"
    ensures IsUpdate(line) && !IsChange(line) && FindString(line) == "[" + range + "]"
  {
    RangeLine(UpdatePrefix, range, line);
    PrefixesExclusive(line);
  }

  /** Three lines read off the list: the header comes first, ... */
  lemma ThreeHeaderFirst(lines: seq<string>, x: string, y: string, z: string)
    requires lines == [x, y, z] && IsHeader(x)
    ensures FirstHeader(lines) == 0
  {
    assert IsHeader(lines[0]);
  }

  /** ... the add line and the remove line are the last of their kind, ... */
  lemma AddThenRemoveLast(lines: seq<string>, x: string, y: string, z: string)
    requires lines == [x, y, z] && IsAdd(y) && !IsAdd(z) && IsRemove(z)
    ensures IsLast(lines, IsAdd, 1) && IsLast(lines, IsRemove, 2)
    ensures exists k :: 0 <= k < |lines| && IsChange(lines[k])
  {
    assert lines[1] == y && lines[2] == z;
    assert IsChange(lines[1]);
  }

  /** ... and none of them updates instances. */
  lemma NoUpdateLine(lines: seq<string>, x: string, y: string, z: string)
    requires lines == [x, y, z] && !IsUpdate(x) && !IsUpdate(y) && !IsUpdate(z)
    ensures forall k :: 0 <= k < |lines| ==> !IsUpdate(lines[k])
  {
  }

  /** A header, then an add and a remove line: the job is dirty with both ranges,
      whatever the ranges are. */
  lemma AddAndRemove(job: string, jobIndex: nat, add: string, remove: string, lines: seq<string>)
    requires forall c :: c in add ==> !IsBracket(c)
    requires forall c :: c in remove ==> !IsBracket(c)
    requires lines == [Header, AddPrefix + " [" + add + "]", RemovePrefix + " [" + remove + "]"]
    ensures var r := Classify(NewJobUpdate(job, jobIndex), lines);
      && r.dirty && r.add == "[" + add + "]" && r.remove == "[" + remove + "]"
      && r.update == "" && r.diff == []
  {
    var j := NewJobUpdate(job, jobIndex);
    var x, y, z := lines[0], lines[1], lines[2];
    HeaderLine(x);
    AddLine(y, add);
    RemoveLine(z, remove);
    ThreeHeaderFirst(lines, x, y, z);
    AddThenRemoveLast(lines, x, y, z);
    NoUpdateLine(lines, x, y, z);
    ClassifyDiff(j, lines);
    ClassifyDirty(j, lines);
    ClassifyRanges(j, lines);
  }

  /** The update line of the sample output quoted in the status command. */
  lemma SampleUpdateLine(line: string)
    requires line == UpdatePrefix + " [0-2]"
    ensures IsUpdate(line) && !IsChange(line) && FindString(line) == "[0-2]"
  {
    var range := "0-2";
    assert forall c :: c in range ==> !IsBracket(c);
    assert line == UpdatePrefix + " [" + range + "]";
    UpdateLine(line, range);
  }

  /** The sample lists, read off the list: the header comes first, ... */
  lemma SampleHeaderFirst(lines: seq<string>, a: string, b: string, c: string, d: string, e: string)
    requires lines == [a, b, c, d, e] && IsHeader(a)
    ensures FirstHeader(lines) == 0
  {
    assert IsHeader(lines[0]);
  }

  /** ... the update line is the last one, ... */
  lemma SampleLastUpdate(lines: seq<string>, a: string, b: string, c: string, d: string, e: string)
    requires lines == [a, b, c, d, e] && IsUpdate(b)
    requires !IsUpdate(c) && !IsUpdate(d) && !IsUpdate(e)
    ensures IsLast(lines, IsUpdate, 1)
  {
    assert lines[1] == b && lines[2] == c && lines[3] == d && lines[4] == e;
  }

  /** ... and no line adds or removes instances. */
  lemma SampleNoChange(lines: seq<string>, a: string, b: string, c: string, d: string, e: string)
    requires lines == [a, b, c, d, e]
    requires !IsChange(a) && !IsChange(b) && !IsChange(c) && !IsChange(d) && !IsChange(e)
    ensures forall k :: 0 <= k < |lines| ==> !IsChange(lines[k])
  {
  }

  /** The sample output quoted in the status command, up to its first hunk line:
      an update of three instances and diff text, all after the header, leave the
      job clean. */
  lemma UpdateOnlySampleIsClean(job: string, jobIndex: nat, lines: seq<string>)
    requires lines == [Header, UpdatePrefix + " [0-2]", "with diff:", "", "59c59,60"]
    ensures var r := Classify(NewJobUpdate(job, jobIndex), lines);
      !r.dirty && r.update == "[0-2]" && r.diff == []
  {
    var j := NewJobUpdate(job, jobIndex);
    var a, b, c, d, e := lines[0], lines[1], lines[2], lines[3], lines[4];
    HeaderLine(a);
    SampleUpdateLine(b);
    PlainLine(c);
    PlainLine(d);
    PlainLine(e);
    SampleHeaderFirst(lines, a, b, c, d, e);
    SampleLastUpdate(lines, a, b, c, d, e);
    SampleNoChange(lines, a, b, c, d, e);
    ClassifyDiff(j, lines);
    ClassifyDirty(j, lines);
    ClassifyRanges(j, lines);
  }

  /** Lines without an instance prefix are all kept by `Uninterpreted`. */
  lemma {:induction false} UninterpretedAll(xs: seq<string>)
    requires forall k :: 0 <= k < |xs| ==> !IsInstanceLine(xs[k])
    ensures Uninterpreted(xs) == xs
    decreases |xs|
  {
    if xs != [] {
      var t := xs[1..];
      assert !IsInstanceLine(xs[0]) && xs == [xs[0]] + t;
      UninterpretedAll(t);
    }
  }

  /** Without a header and without instance lines, every line is preamble. */
  lemma PreambleAll(lines: seq<string>)
    requires forall k :: 0 <= k < |lines| ==> !IsHeader(lines[k]) && !IsInstanceLine(lines[k])
    ensures Preamble(lines) == lines
  {
    assert FirstHeader(lines) == |lines|;
    assert lines[..|lines|] == lines;
    UninterpretedAll(lines);
  }

  /** Output without the header and without instance lines is kept whole, and
      marks the job dirty unless it is empty. */
  lemma NoHeaderKeepsEverything(job: string, jobIndex: nat, lines: seq<string>)
    requires forall k :: 0 <= k < |lines| ==> !IsHeader(lines[k]) && !IsInstanceLine(lines[k])
    ensures var r := Classify(NewJobUpdate(job, jobIndex), lines);
      r.diff == lines && !r.foundHeader && (r.dirty <==> lines != [])
  {
    var j := NewJobUpdate(job, jobIndex);
    PreambleAll(lines);
    ClassifyFoundHeader(j, lines);
    ClassifyDiff(j, lines);
    ClassifyDirty(j, lines);
  }

  /** A plain line before a header that comes later is kept in `diff` all the
      same, and makes the job dirty. */
  lemma PreambleBeforeHeader(job: string, jobIndex: nat, before: string, header: string, rest: seq<string>, lines: seq<string>)
    requires !IsHeader(before) && !IsInstanceLine(before) && IsHeader(header)
    requires lines == [before, header] + rest
    ensures var r := Classify(NewJobUpdate(job, jobIndex), lines);
      r.foundHeader && r.dirty && r.diff == [before]
  {
    var j := NewJobUpdate(job, jobIndex);
    assert lines[0] == before && lines[1] == header;
    assert FirstHeader(lines) == 1;
    assert lines[..1] == [before];
    assert Uninterpreted([before]) == [before];
    ClassifyFoundHeader(j, lines);
    ClassifyDiff(j, lines);
    ClassifyDirty(j, lines);
  }

  /** An add line without a `[`, such as `add instances: none`, has the empty range. */
  lemma AddLineWithoutRange(line: string)
    requires IsAdd(line) && '[' !in line
    ensures !IsUpdate(line) && !IsHeader(line) && FindString(line) == ""
  {
    assert forall k :: 0 <= k < |line| ==> line[k] != '[';
    PrefixesExclusive(line);
  }

  /** A header and an add line without a bracket group: the job is dirty all the
      same, and records the empty range. */
  lemma AddWithoutRange(job: string, jobIndex: nat, header: string, line: string, lines: seq<string>)
    requires IsHeader(header) && IsAdd(line) && '[' !in line
    requires lines == [header, line]
    ensures var r := Classify(NewJobUpdate(job, jobIndex), lines);
      r.dirty && r.add == "" && r.diff == []
  {
    var j := NewJobUpdate(job, jobIndex);
    AddLineWithoutRange(line);
    assert lines[0] == header && lines[1] == line;
    assert FirstHeader(lines) == 0;
    assert IsLast(lines, IsAdd, 1);
    assert IsChange(lines[1]);
    ClassifyDiff(j, lines);
    ClassifyDirty(j, lines);
    ClassifyRanges(j, lines);
  }
}
