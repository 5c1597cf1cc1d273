# RFID duplicates checker: a Dafny model of the scan engine

The RFID duplicates checker watches a text file that an RFID reader appends
to. Once a second, a background loop re-reads the file. It splits the text on
whitespace and keeps the tokens that look like tag identifiers: they contain
"DC" and are exactly ten bytes long. It then reports one of three statuses:
no tag yet (BLUE), every tag unique (GREEN), or some tag repeats (RED).

This project models that engine, the `RFIDChecker` type of `src/main.rs`:

- `text.dfy` (module `Text`): Rust's `char::is_whitespace` (the Unicode
  White_Space property), the UTF-8 byte length that `str::len` reports, and
  `str::split_whitespace`.
- `tags.dfy` (module `Tags`): `str::contains`, the candidate filter
  (`contains("DC") && len() == 10`) and the candidates of a text.
- `uniqueness.dfy` (module `Uniqueness`): the test
  `!(1..n).any(|i| rfids[i..].contains(&rfids[i - 1]))`. It is proved
  equivalent to "the candidates are pairwise distinct" and to "there are as
  many distinct values as candidates".
- `status.dfy` (module `Status`): the three statuses as the enumeration
  `Empty | AllUnique | DuplicatesFound`. Also the choice the loop makes among
  them (GREEN or RED by the test, then BLUE when there is no candidate) and
  what a status means for the text.
- `polling.dfy` (module `Polling`): one cycle of `run_every_sec` as a function
  of what the cycle observes:
  - the watched path;
  - the file system;
  - whether the status channel accepts the status;
  - the time the work took.

  Also the sleep arithmetic of `Duration::checked_sub`, and finite runs of the
  loop.
- `checker.dfy` (module `Checker`): the class `RfidChecker` with the fields
  `txtContents`, `isUnique` and `len`. Its methods `SetContent` and
  `CheckUnique` assign those fields, `RunCycle` is one loop iteration and
  `RunEverySec` is the loop over a finite sequence of cycles. Each method is
  proved against the functions above.
- `scenarios.dfy` (module `Scenarios`): concrete file contents and the status
  one scan of them reports.
- `wrappers.dfy` (module `Wrappers`): `Option`.

The class's methods hold the state changes. The tokenising, the filter, the
uniqueness test, the classification and the cycle decisions are functions,
because the source writes them as iterator expressions and `match`/`if`
expressions.

## Model

| member | source | states |
|---|---|---|
| `Text.IsWhitespace` | src/main.rs:51 | the whitespace test `split_whitespace` uses; on ASCII it holds exactly for space, tab, line feed, vertical tab, form feed and carriage return, and no char above U+3000 is whitespace |
| `Text.Utf8Len` | src/main.rs:54 | the byte length of a text lies between its char count and four times its char count |
| `Text.Utf8LenAscii` | src/main.rs:54 | the byte length equals the char count exactly when every char is ASCII |
| `Text.WordLen` | src/main.rs:51 | the leading run of non-whitespace chars is whitespace-free and maximal (followed by whitespace or the end) |
| `Text.SplitWhitespace` | src/main.rs:51 | every token `split_whitespace` yields is non-empty and holds no whitespace |
| `Text.SplitWord` | src/main.rs:51 | a non-empty text without whitespace splits into exactly itself |
| `Text.SplitAtWhitespace` | src/main.rs:51 | a whitespace char splits the text into the tokens before it followed by the tokens after it |
| `Text.SplitAtEachWhitespace` | src/main.rs:51 | `split(char::is_whitespace)` yields at least one piece and no piece holds whitespace |
| `Text.SplitWhitespaceFiltersSplit` | src/main.rs:51 | the tokens are the pieces of `split(char::is_whitespace)` with the empty pieces dropped |
| `Tags.Contains` | src/main.rs:54 | `contains` finds the pattern only in a token at least as long as it, and always finds the empty pattern |
| `Tags.ContainsAtOffset` | src/main.rs:54 | `contains` holds exactly when the pattern starts at some offset of the token |
| `Tags.ContainsMarkerAt` | src/main.rs:54 | a token contains "DC" exactly when some 'D' is directly followed by 'C' |
| `Tags.IsTag` | src/main.rs:54 | the filter closure `contains("DC") && len() == 10` admits only tokens of two to ten chars |
| `Tags.TagCharCount` | src/main.rs:54 | a candidate has at most ten chars; a ten-char token is a candidate iff it is ASCII and contains "DC" |
| `Tags.Candidates` | src/main.rs:52-56 | a token is among the candidates iff it is one of the tokens, contains "DC" and is ten bytes long; there are no more candidates than tokens |
| `Tags.CandidatesAppend` | src/main.rs:52-56 | the filter distributes over concatenation, so candidates keep the tokens' order |
| `Tags.TagsOf` | src/main.rs:51-56 | a string is a candidate of the text iff it is one of its `split_whitespace` tokens and passes the filter; every candidate is non-empty and holds no whitespace |
| `Uniqueness.RepeatFrom` | src/main.rs:59 | the `any` over `i..n` of `c[i..].contains(&c[i - 1])` holds iff some index `j` in `i..n` has `c[j - 1]` in the suffix from `j` |
| `Uniqueness.SuffixCheckUnique` | src/main.rs:59 | the negated `any` over `1..n` holds iff no `c[j - 1]` occurs in the suffix from `j`; with zero or one candidate it holds |
| `Uniqueness.RepeatFromIff` | src/main.rs:59 | the `any` scan from index `i` finds a repeat iff two equal candidates sit at positions `j < k` with `j >= i - 1` |
| `Uniqueness.SuffixCheckIffDistinct` | src/main.rs:59 | the suffix-contains test reports unique iff the candidates are pairwise distinct, and reports a repeat iff some value occurs twice |
| `Uniqueness.DistinctIffCardinality` | src/main.rs:59 | the candidates are pairwise distinct iff the set of their values is as large as the list |
| `Status.Classify` | src/main.rs:74-81 | no candidate gives Empty whatever the test said; otherwise AllUnique iff unique, DuplicatesFound iff not |
| `Status.Scan` | src/main.rs:51-81 | the scan of a text is Empty iff the text has no candidate, and reports duplicates only when it has at least two candidates |
| `Status.ScanMeaning` | src/main.rs:51-81 | a scan gives Empty iff the text has no candidate, AllUnique iff it has candidates and they are pairwise distinct, DuplicatesFound iff some candidate value occurs twice |
| `Status.TagsOfJoin` | src/main.rs:51-56 | the candidates of two texts joined by a whitespace char are those of the first followed by those of the second |
| `Scenarios.TwoDistinctTags` | src/main.rs:51-81 | "FOO BARDCXXXX1 BAZDCXXXX2" scans as AllUnique |
| `Scenarios.RepeatedTag` | src/main.rs:51-81 | "ABCDCXXXX1 ZZZ ABCDCXXXX1" scans as DuplicatesFound |
| `Scenarios.EmptyFile` | src/main.rs:79-81 | an empty file scans as Empty |
| `Scenarios.MarkerTooShort` | src/main.rs:54 | "short DC123" scans as Empty: the only token with "DC" is five bytes long |
| `Scenarios.ByteLengthCounts` | src/main.rs:54 | a nine-char token whose first char takes two bytes is a candidate, and the same token with a tenth char is not |
| `Polling.CheckedSub` | src/main.rs:97-100 | `checked_sub` yields a value iff runtime <= wait (zero when equal), and that value plus the runtime is the wait |
| `Polling.HasPath` | src/main.rs:67-68 | the path is read iff it is set and its byte length is positive, which is iff it is not the empty string |
| `Polling.ReadSucceeds` | src/main.rs:67-70 | a read succeeds only with a set, non-empty path |
| `Polling.Cycle` | src/main.rs:66-100 | a status is submitted iff a non-empty path is set and the read succeeds, and it is the scan of the text read; the loop stops iff that status is refused by the channel; a continuing cycle sleeps `checked_sub(wait, runtime)`, a stopping one does not sleep |
| `Polling.NoPathNoRead` | src/main.rs:67-68 | with no path or an empty path the cycle's outcome does not depend on the file system, nothing is submitted and the loop goes on |
| `Polling.ReadErrorSkips` | src/main.rs:90-92 | a failed read submits nothing and the loop goes on |
| `Polling.CycleLength` | src/main.rs:97-100 | a continuing cycle lasts `wait` from start to start when its work fits in `wait`, and its work time when it overran |
| `Polling.Trace` | src/main.rs:65-101 | a run has at most one outcome per cycle, at least one when there is a cycle, and its first outcome is the first cycle's |
| `Polling.TraceShape` | src/main.rs:65-101 | a run's outcomes are the cycles' own outcomes in order; every one but the last continued; the run ends early only at a cycle that stopped the loop |
| `Polling.QuietCyclesNeverStop` | src/main.rs:67-95 | cycles without a successful read (no path, read errors) never stop the loop and submit nothing |
| `Polling.StopsOnlyOnClosedChannel` | src/main.rs:83-88 | a run that ends early ends at a cycle whose read succeeded and whose status the channel refused |
| `Polling.FinalTextNoRead` | src/main.rs:65-101 | a run in which no cycle reads the file leaves the checker's contents as they were |
| `Polling.FinalTextLastRead` | src/main.rs:69-72 | after a run the checker's contents are the text of the last cycle of the run that read the file |
| `Checker.RfidChecker.constructor` | src/main.rs:39-45 | a new checker has empty contents, `isUnique` true and `len` zero, and its results describe its contents |
| `Checker.RfidChecker.SetContent` | src/main.rs:47-49 | the contents are replaced and both result fields are left unchanged |
| `Checker.RfidChecker.CheckUnique` | src/main.rs:50-61 | the contents are unchanged; `len` is the candidate count; `isUnique` is the returned value, which is true iff the candidates are pairwise distinct |
| `Checker.RfidChecker.RunCycle` | src/main.rs:66-100 | one loop iteration returns exactly `Polling.Cycle`'s outcome; after a successful read the checker holds the text read and consistent results, otherwise it is unchanged |
| `Checker.RfidChecker.RunEverySec` | src/main.rs:63-102 | running the loop over a finite sequence of cycles returns `Polling.Trace` of them; the checker then holds `Polling.FinalText` of the run (the last text read, or the old contents); after any read its results describe its contents, and a run without a read leaves every field unchanged |
| `Checker.CheckTwice` | src/main.rs:50-61 | checking the same contents twice returns the same answer and leaves the contents unchanged |

## Left out

- The druid user interface is not modelled: `ui_builder`, `StatusPanel`,
  `Delegate::command`, `main`, the window and the file dialog. It only
  displays the status and selects the file. The colour-to-text mapping of
  `StatusPanel::event` is display only.
- The `static mut FILE_PATH` that the UI thread writes and the loop reads is
  not modelled as shared state. Each cycle takes the path as an input read
  once at its start, so last-write-wins and the unsynchronised access between
  the two threads are outside the model.
- `std::fs::read_to_string` is a function from path to `Contents(text)` or
  `ReadError`, given per cycle. A file that is not valid UTF-8 is one of the
  read errors. `println!` of the error is not modelled.
- `submit_command` is a per-cycle boolean: whether the channel accepts the
  status. The colour value that is sent is the three-valued status.
- `Instant`, `thread::sleep` and `thread::spawn` are not modelled. The elapsed
  time is a cycle input and the sleep is an output. Durations are natural
  numbers in one unit; the source uses nanosecond `Duration`s and a fixed wait
  of 1000 ms, which is the parameter `wait` here.
- The infinite `loop` is modelled over a finite sequence of cycles
  (`RunEverySec`, `Polling.Trace`). A loop that never stops is not modelled.
- `len` is a `nat`, where the source has a `usize`. A file would need more
  than 2^64 tokens to overflow it.
- After an overrun the code skips the sleep call instead of sleeping for
  zero time; the model keeps that distinction (`sleep == None`). A cycle
  whose status was refused breaks out of the loop before the sleep, so it
  does not sleep either.
