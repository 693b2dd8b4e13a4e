# aurorapa `status`: the text processing of the status command

The `status` command of aurorapa asks the `aurora` client two things. First,
`aurora config list <file>` names the jobs of an Aurora configuration file.
Then, for each job, `aurora job diff <job> <file>` describes the update that
`aurora update` would make. The command reduces both outputs to a summary of
one `JobUpdate` record per job. This project models that reduction and proves
what it computes. Both `aurora` outputs are taken as given inputs.

The model follows the three parts of the command's text processing:

- `brackets.dfy` (module `Brackets`): the regular expression
  `\[([^\[\]]*)\]` used with Go's `Regexp.FindString`, coded by hand. It
  returns the leftmost `[`, run of non-brackets, `]` substring, or `""`.
- `fields.dfy` (module `Fields`): Go's `strings.FieldsFunc`, written as the
  library's own scan. It is proved equal to a reference definition: the maximal
  runs of non-separator characters, left to right, each once.
- `jobs.dfy` (module `Jobs`): the `JobUpdate` record, `NewJobUpdate`, and the
  job enumeration. The enumeration takes the first bracket group of the
  `config list` output and splits it at `[`, `]`, comma and space.
- `classifier.dfy` (module `Classifier`): the per-line scan of the diff output.
  `Step` is one iteration of the loop body and `Classify` is the fold over the
  lines. `ClassifyLines` is the loop as written, proved equal to the fold. Each
  field of the result is characterised without the scan:
  - `foundHeader`: some line starts with the header.
  - `diff`: the lines before the first header that carry no instance prefix
    (`Preamble`).
  - `dirty`: a remove or add line exists, or `diff` is non-empty.
  - `remove`, `add`, `update`: the bracket group of the last line with that
    prefix (`LastWriteWins`).
- `status.dfy` (module `Status`): the whole command. The `aurora` calls become a
  string and a function from job name to diff lines.
- `examples.dfy` (module `Examples`): worked cases, including the sample output
  quoted at the end of the command.

The model follows the code exactly, including these behaviours:

- The three instance prefixes are tested on every line, also before the header.
  An instance line before the header is therefore classified, not kept as diff
  text.
- Lines that come before a header appearing later are kept in `diff` and make
  the job dirty.
- An instance line without a bracket group sets its field to `""`.
- A diff of only header and `update instances:` lines leaves the job clean.

## Model

| member | source | states |
|---|---|---|
| Brackets.FindString | cmd/status.go:117-118 | The result is `""` exactly when the input holds no `[`, non-brackets, `]` substring. Otherwise it is such a substring, no match starts further left, and it starts with `[`, ends with `]` and has no bracket in between. |
| Brackets.LeftmostFrom | cmd/status.go:117-118 | The first match starting at or after a position. No earlier position starts a match, and when it finds none no position starts one. |
| Brackets.FindStringIsLeftmost | cmd/status.go:117-118 | Any leftmost match is exactly the extracted substring: the result is determined by the input. |
| Brackets.FindStringAfterPlainText | cmd/status.go:117-118 | For text without `[` followed by a bracketed run without brackets, the extraction is that bracketed run, whatever follows. |
| Fields.SpansFrom | cmd/status.go:125 | The `FieldsFunc` scan from a position lists every maximal run from the open field's start (or the position) on, in increasing order. |
| Fields.FieldsFunc | cmd/status.go:121-125 | Every field is non-empty and free of separators. The fields are the pieces cut out by a complete list of maximal runs. The result is empty exactly when every character is a separator. |
| Fields.AllRunsUnique | cmd/status.go:125 | There is only one increasing list of all maximal runs of a string. |
| Fields.FieldsFuncIsRuns | cmd/status.go:125 | A list of strings is the `FieldsFunc` result if and only if it is cut out by all the maximal runs, in order. |
| Jobs.NewJobUpdate | cmd/status.go:76-85 | The new record has the given name and index, is not dirty, has seen no header, and has empty diff and ranges. |
| Jobs.EnumerateJobs | cmd/status.go:116-125 | Output without a bracket group names no job. Every name is non-empty and contains no `[`, `]`, comma or space. |
| Jobs.EnumerateJobsSplitsFirstGroup | cmd/status.go:116-125 | The names are the enumeration if and only if they are, in order, the maximal separator-free pieces of the first bracket group. |
| Jobs.StartJobs | cmd/status.go:130-131 | The job at position i starts as a blank record with name `jobs[i]` and index i, one record per name. |
| Classifier.PrefixesExclusive | cmd/status.go:147-161 | A line carries at most one of the four prefixes, so the if/else chain picks at most one branch. |
| Classifier.Step | cmd/status.go:147-165 | One line never changes name or index, never clears `foundHeader` or `dirty`, and appends at most one line to `diff`. |
| Classifier.StepKeeps | cmd/status.go:147-165 | One line sets `foundHeader` if it is the header. It appends itself to `diff` exactly when no header has been seen, it is not the header, and it has no instance prefix. |
| Classifier.StepRanges | cmd/status.go:151-161 | One line overwrites a range field with its bracket group exactly when it has that field's prefix, even when the group is `""`. |
| Classifier.Classify | cmd/status.go:143-167 | The scan never changes the job's name or index, never clears `foundHeader` or `dirty`, and only extends `diff`, by at most one entry per line. |
| Classifier.ClassifyFoundHeader | cmd/status.go:147-149 | `foundHeader` ends true if and only if it started true or some line starts with the header. |
| Classifier.ClassifyDiff | cmd/status.go:162-165 | `diff` gains exactly the lines before the first header that carry no instance prefix, in order, unless the header was already seen. |
| Classifier.ClassifyDirty | cmd/status.go:151-165 | `dirty` ends true if and only if it started true, a remove or add line exists, or lines were kept in `diff`. |
| Classifier.LastWriteWinsUnique | cmd/status.go:151-161 | Last write wins leaves a range field no choice: two values that both satisfy it are equal. |
| Classifier.ClassifyRemove | cmd/status.go:151-154 | `remove` is the bracket group of the last remove line, or unchanged when there is none. |
| Classifier.ClassifyAdd | cmd/status.go:155-158 | `add` is the bracket group of the last add line, or unchanged when there is none. |
| Classifier.ClassifyUpdate | cmd/status.go:159-161 | `update` is the bracket group of the last update line, or unchanged when there is none. |
| Classifier.ClassifyRanges | cmd/status.go:151-161 | Last write wins for all three range fields at once. |
| Classifier.ClassifyAppend | cmd/status.go:143-167 | Scanning `p + q` is scanning `p` and then `q` from the resulting record: the loop keeps no state outside the record. |
| Classifier.FoundHeaderMonotone | cmd/status.go:147-149 | Once a prefix of the lines has set `foundHeader`, no later lines clear it. |
| Classifier.ClassifyNew | cmd/status.go:131-167 | For a fresh record, every field after the scan is stated without the scan. |
| Classifier.PreambleLines | cmd/status.go:147-163 | Every kept line comes from before the first header, and is neither the header nor an instance line. |
| Classifier.DirtyCoversRanges | cmd/status.go:151-165 | A fresh job with a non-empty remove or add range, or with kept lines, is dirty. |
| Classifier.UpdateOnlyStaysClean | cmd/status.go:159-161 | A diff of only header and update lines leaves a fresh job clean with nothing kept. |
| Classifier.NothingToKeep | cmd/status.go:162-165 | When all lines before the first header are instance lines, nothing is kept. |
| Classifier.ClassifyIgnoresIdentity | cmd/status.go:131-167 | Two jobs with the same diff output end with the same record apart from name and index. |
| Classifier.ClassifyLines | cmd/status.go:143-167 | The loop as written computes the fold, and each field of its result satisfies the characterisations above. |
| Status.ReportJob | cmd/status.go:131-167 | Reading a job's diff lines into the blank record it starts from gives a record with that job's name and index. `foundHeader` holds exactly when some line is the header. `diff` is the kept lines. `dirty` holds exactly when a remove or add line exists or lines were kept. Each range is the bracket group of the last line with its prefix, or `""` when there is none. |
| Status.ReportsUnique | cmd/status.go:130-167 | At most one record satisfies that description, so it fixes every field of the record. |
| Status.ReportAll | cmd/status.go:130-167 | The loop over the jobs, each starting from its record in `StartJobs`: one record per name, in order, and record i is as described for name i at index i with its own diff output. |
| Status.Summarize | cmd/status.go:116-167 | One record per enumerated job, in order, with index i and the i-th name. Every field of each record is as described for one job, computed from that job's diff output. |
| Status.SummaryUnique | cmd/status.go:116-167 | Any list with one record per enumerated job, each described as above, is the summary itself. |
| Examples.LeftmostMatchSkipsUnclosedBracket | cmd/status.go:117-118 | For `[a[b]`, with a and b free of brackets, the extraction is `[b]`: the first `[` starts no match. |
| Examples.NoJobListNoJobs | cmd/status.go:116-125 | An output without `[` names no job. |
| Examples.TwoNameList | cmd/status.go:116-125 | For text without `[` followed by `[a, b]`, with separator-free names a and b, the names are exactly a and b. |
| Examples.JobListIsSplit | cmd/status.go:116-125 | `jobs=[foo/bar/a, foo/bar/b]` names `foo/bar/a` and then `foo/bar/b`. |
| Examples.RangeLine | cmd/status.go:151-161 | A line made of a prefix, a space and a bracketed range starts with the prefix and yields that range. |
| Examples.AddLine | cmd/status.go:155-158 | `add instances: [r]`, with r free of brackets, is an add line and nothing else, and yields `[r]`. |
| Examples.RemoveLine | cmd/status.go:151-154 | `remove instances: [r]`, with r free of brackets, is a remove line and nothing else, and yields `[r]`. |
| Examples.UpdateLine | cmd/status.go:159-161 | `update instances: [r]`, with r free of brackets, is an update line that does not make the job dirty, and yields `[r]`. |
| Examples.AddAndRemove | cmd/status.go:143-167 | A header, then `add instances: [a]`, then `remove instances: [b]`, with a and b free of brackets, give a dirty job with ranges `[a]` and `[b]`, no update and nothing kept. |
| Examples.UpdateOnlySampleIsClean | cmd/status.go:186-191 | The first five lines of the sample output quoted in the command leave the job clean, with update range `[0-2]` and nothing kept. |
| Examples.NoHeaderKeepsEverything | cmd/status.go:162-165 | Output without a header and without instance lines is kept whole, and the job is dirty exactly when the output is not empty. |
| Examples.PreambleBeforeHeader | cmd/status.go:162-165 | A plain line directly before a header is the only line kept, whatever follows the header, and it makes the job dirty. |
| Examples.AddWithoutRange | cmd/status.go:155-158 | After a header, an add line without `[` (such as `add instances: none`) makes the job dirty and records the empty range. |

## Left out

- Running `aurora`: `exec.LookPath`, `exec.Command`, `Run` and the fatal exits
  (cmd/status.go:98-114, 133-139). Both outputs are inputs of the model: a
  string for `config list`, and a function from job name to lines for
  `job diff`.
- `os.Setenv("DIFF_VIEWER", …)` (cmd/status.go:93) and the logger set-up
  (cmd/status.go:95-96): they only affect the external tool and the log.
- The cobra command registration and argument checks (cmd/status.go:41-61):
  framework wiring.
- Printing: the job count (cmd/status.go:128), the coloured per-job line and
  the kept diff lines (cmd/status.go:169-182). The model returns the records
  that would be printed.
- `bufio.Scanner` (cmd/status.go:143-145): the model takes the lines already
  split. The scanner's 64 KiB line limit, its stripping of a trailing `\r`, and
  the splitting of the text into lines are library behaviour.
- The general Go regular-expression engine: only the one fixed pattern is
  coded. Go matches runes of UTF-8 text; the model works on Dafny `char`s and
  does not model invalid UTF-8.
- Jobs.JobUpdate: `JobIndex` is a Go `int`; the model uses `nat`, since an
  index is at most the number of jobs.
- Examples.UpdateOnlySampleIsClean: covers the sample up to `59c59,60`. The
  three hunk lines after it start with `<`, `-` and `>`, which no prefix
  starts with, and the general lemmas cover them
  (Classifier.ClassifyDiff, Classifier.ClassifyDirty).
