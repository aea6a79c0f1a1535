# httptee response comparator, in Dafny

httptee is a TCP relay for HTTP/1.x. Every client request goes to a
primary backend, whose response goes back to the client, and it is
mirrored to a secondary backend. The secondary response is captured
and discarded. Once both exchanges have finished, the relay compares
the two captured responses and logs the comparison:

- the request;
- the status lines, equal or different;
- a line diff of the header blocks, if there is one;
- whether the bodies differ.

This project models that comparison and the loop that captures the
secondary response. It is based on `httptee.go`.

- `GoStrings` (`strings.dfy`): the parts of Go's `strings` package the
  comparator calls (`Index`, `SplitN`, `Split`, `Join`) and Go's bytewise
  string order. It proves that join undoes split for any non-empty
  separator, that split undoes join on CR LF for pieces without CR LF,
  and that the order is total.
- `StringSort` (`sort.dfy`): `sort.Strings` on the slice of an array after
  a given index. The in-place method is proved equal to the unique sorted
  permutation `SortLines`.
- `HeaderDiff` (`diff.dfy`): the edit script a diff engine returns, and
  `PrintDiff`, the loop that renders it. The diff engine is a foreign
  library. It appears only as a function parameter, constrained where
  needed by `IsLineDiffer`: every script is a valid edit script between
  its inputs, and identical inputs give a script without edits.
- `Capture` (`capture.dfy`): the secondary read loop. The connection is
  the sequence of outcomes its successive reads return. Past the end of
  that sequence, every read fails (end of stream).
- `Comparator` (`comparator.dfy`): the comparison, both as the function
  `ComparisonLog`, which returns the logged lines in order, and as the
  methods `CompareCaptures` and `CompareResponses`, which follow the
  source statement by statement and are proved equal to it.

The guard before the comparison (`httptee.go:83`) checks that both heads
split into at least one line. `Split` with a non-empty separator never
returns zero pieces, so the guard always holds. "Response missing" is
therefore never logged: an empty capture is compared as a response with
an empty status line, no headers and an empty body. The `else` branch
at `httptee.go:103-105` is dead code (`ComparisonLogShape`,
`EmptySecondaryCompared`).

## Model

| member | source | states |
|---|---|---|
| GoStrings.Index | httptee.go:79-80 | -1 exactly when the separator does not occur; otherwise a position where it occurs, with no occurrence before it |
| GoStrings.SplitN | httptee.go:79-80 | a count of 0 gives no pieces, any other count at least one; a positive count gives at most that many pieces |
| GoStrings.Split | httptee.go:81-82 | splitting on a non-empty separator always gives at least one piece |
| GoStrings.SplitNTwo | httptee.go:79-80 | SplitN with count 2 gives the text before and after the first occurrence, or the whole string when there is none |
| GoStrings.JoinSplit | httptee.go:81-82 | joining the pieces of a split with the same separator gives back the original string |
| GoStrings.SplitPiecesFree | httptee.go:81-82 | no piece of a split contains the separator |
| GoStrings.SplitJoin | httptee.go:81-82 | splitting joined pieces on CR LF gives the pieces back when none contains CR LF |
| GoStrings.Join | httptee.go:86-87 | the pieces with the separator between each adjacent pair; JoinSplit states that it undoes Split, and SplitJoin that Split on CR LF undoes it for CR LF-free pieces |
| GoStrings.Less | httptee.go:84-85 | Go's byte-wise string order, with a proper prefix below the longer string; LessTrichotomy, LessTransitive and LessEqTotalOrder state that it is a strict total order |
| GoStrings.LessTrichotomy | httptee.go:84-85 | Go's string order is trichotomous and irreflexive |
| GoStrings.LessTransitive | httptee.go:84-85 | Go's string order is transitive |
| GoStrings.LessEqTotalOrder | httptee.go:84-85 | `<=` on strings is total, antisymmetric and transitive |
| StringSort.Insert | httptee.go:84-85 | inserting into a sorted sequence keeps it sorted and adds exactly that element |
| StringSort.SortLines | httptee.go:84-85 | the result is sorted and a permutation of the input |
| StringSort.SortedUnique | httptee.go:84-85 | two sorted permutations of the same lines are equal, so the sorted order does not depend on the sorting algorithm |
| StringSort.SortedHeadsEqual | httptee.go:84-85 | two sorted permutations of the same lines start with the same line |
| StringSort.SinkInto | httptee.go:84-85 | moving one line down into a sorted run extends the run, permutes the array and touches nothing outside the run |
| StringSort.SortStrings | httptee.go:84-85 | sorts the slice from a given index in place into the unique sorted permutation and leaves the elements before it unchanged |
| HeaderDiff.DiffTextEmptyIff | httptee.go:20-28 | the rendered diff is non-empty exactly when the script contains a deletion or an insertion |
| HeaderDiff.Render | httptee.go:21-26 | what one operation adds to the output: "- " and the text for a deletion, "+ " and the text for an insertion, nothing for kept text; PrintDiff is proved to add exactly this per operation |
| HeaderDiff.DiffText | httptee.go:19-27 | the output after the whole script: each operation's rendering, in order; DiffTextEmptyIff states when it is empty |
| HeaderDiff.HeaderDiffLog | httptee.go:28-30 | the lines PrintDiff logs: one "Headers differ" line holding the output, or none; HeaderDiffLogIff and HeaderDiffLogHeading state its properties |
| HeaderDiff.IsLineDiffer | httptee.go:88-91 | what the comparison assumes of the line diff engine: every result is a valid edit script between its inputs, and equal inputs give no edits; WholeBlockDiffIsLineDiffer shows it can be met |
| HeaderDiff.HeaderDiffLogIff | httptee.go:28-30 | "Headers differ" is logged exactly when the script edits something, followed by the rendered edits |
| HeaderDiff.PrintDiff | httptee.go:18-31 | the loop logs the fold of "- " deletions and "+ " insertions, skipping kept text, and logs it only when it is non-empty |
| HeaderDiff.UneditedSidesAgree | httptee.go:88-91 | a script without edits has the same old and new text |
| HeaderDiff.DifferentBlocksLogged | httptee.go:88-91 | a valid script between two different header blocks is always logged |
| HeaderDiff.WholeBlockDiff | httptee.go:88-91 | a one-step engine gives valid scripts, with no edits for equal inputs, so the diff-engine assumption can be met |
| Capture.FirstStop | httptee.go:62-72 | the position of the first read that fails or returns zero bytes; no read before it does |
| Capture.Chunks | httptee.go:64-68 | the bytes of the successful reads of a script, in order; ChunksAppend states that it grows by one chunk per read |
| Capture.Captured | httptee.go:62-72 | the buffer once the loop has ended: the chunks before the first stopping read; CaptureSecondary is proved to compute it, and CapturedUpToStop and CapturedToEnd state its properties |
| Capture.CaptureSecondary | httptee.go:61-73 | the loop's buffer holds the chunks of the successful reads before the first failing or empty read; the loop makes one read per such chunk, plus the read that stops it |
| Capture.CapturedUpToStop | httptee.go:64-71 | the bytes of the stopping read and every later read never reach the buffer |
| Capture.CapturedToEnd | httptee.go:62-72 | when no scripted read stops the loop, every chunk is captured before end of stream |
| Capture.FirstStopAt | httptee.go:62-72 | the stopping position is determined by where the first failing or empty read is |
| Comparator.HeadLines | httptee.go:81-82 | the head of a response always splits into at least one line |
| Comparator.SplitMessage | httptee.go:79-80 | the head and body of a capture, after padding the two-way split with empty strings; SplitMessageSpec states what they are with and without a boundary |
| Comparator.HeaderBlock | httptee.go:84-87 | the sorted header lines joined by CR LF, with a final CR LF; HeaderBlockOrderInsensitive, HeaderBlockLines and HeaderBlockEqualIff state its properties |
| Comparator.StatusMessage | httptee.go:94-98 | "Response code: " and the shared status line, or "Response code differs:" with both lines after "- " and "+ "; StatusDecision states where it is logged |
| Comparator.BodyLog | httptee.go:100-102 | "Response body differs" when the bodies differ, nothing otherwise; BodyDecision and BodiesOnlyCompared state its properties |
| Comparator.ComparisonLog | httptee.go:79-105 | the logged lines, in order; its properties are stated by ComparisonLogShape, StatusDecision, HeaderDecision and BodyDecision, and CompareCaptures is proved to produce it |
| Comparator.SessionLog | httptee.go:76-106 | no lines without a secondary backend, otherwise the comparison of the primary capture with the secondary capture; CompareResponses is proved to produce it |
| Comparator.SplitMessageSpec | httptee.go:79-80 | with a boundary, head and body are the text before and after its first occurrence; without one, the capture is all head and the body is empty |
| Comparator.HeadLinesSpec | httptee.go:81-82 | the head lines are at least one, join back into the head, and contain no CR LF |
| Comparator.SplitFormattedResponse | httptee.go:79-82 | for a response made of a status line, header lines, a blank line and a body, cutting and splitting recover exactly the status line, the headers and the body |
| Comparator.EmptyCapture | httptee.go:79-82 | an empty capture has an empty head, an empty body and one empty status line |
| Comparator.JoinAppendEmpty | httptee.go:86-87 | appending an empty piece to a join adds one separator |
| Comparator.HeaderBlockOrderInsensitive | httptee.go:84-87 | header lists that are permutations of each other give the same header block, which ends in CR LF |
| Comparator.HeaderBlockLines | httptee.go:84-87 | splitting a header block on CR LF gives the sorted headers and one final empty piece |
| Comparator.HeaderBlockEqualIff | httptee.go:84-87 | two non-empty lists of CR LF-free header lines give the same block exactly when they are permutations of each other |
| Comparator.NoHeadersLikeEmptyHeader | httptee.go:84-87 | a head without header lines and a head with one empty header line give the same block, a lone CR LF |
| Comparator.HeaderDiffLogHeading | httptee.go:28-29 | every header log line starts with the "Headers differ:" heading and a newline |
| Comparator.LogLinesDistinct | httptee.go:93-102 | the request, status, header and body log lines cannot be mistaken for one another |
| Comparator.ComparisonLogShape | httptee.go:83-105 | the log is always the request, the status message, the header diff log and the body log, and never "Response missing" |
| Comparator.StatusDecision | httptee.go:93-98 | exactly one status message is logged, second: "Response code" with the shared status line, or "Response code differs" with both |
| Comparator.BodyDecision | httptee.go:100-102 | "Response body differs" is logged, last, exactly when the bodies differ |
| Comparator.BodiesOnlyCompared | httptee.go:100-102 | the log depends on the bodies only through whether they are equal |
| Comparator.HeaderDecision | httptee.go:84-99 | with a valid diff engine, a header diff is logged exactly when the sorted header blocks differ |
| Comparator.ReorderedHeadersLogNoDiff | httptee.go:84-99 | the same status, headers in another order and the same body log only the request and the status line |
| Comparator.EmptySecondaryCompared | httptee.go:79-105 | an empty secondary capture is compared as an empty status line, and "Response missing" is not logged |
| Comparator.ReorderedHeadersExample | httptee.go:84-99 | a concrete pair of responses with swapped headers logs no header diff |
| Comparator.StatusMismatchExample | httptee.go:94-95 | a 200 against a 404 logs both status lines, the primary's after "- " and the secondary's after "+ " |
| Comparator.SortAndJoin | httptee.go:84-87 | sorts the header lines in place into their unique sorted order, keeps the status line, and returns the header block of the original lines |
| Comparator.LogComparison | httptee.go:93-102 | logs the request, then the status message, then the header diff log, then the body message when the bodies differ |
| Comparator.CompareCaptures | httptee.go:79-105 | the statement-by-statement comparison logs exactly the comparison log, never "Response missing" |
| Comparator.CompareResponses | httptee.go:76-106 | no comparison without a secondary backend; otherwise the secondary capture is compared, with at least the request and status logged |

## Left out

- Listening, accepting, dialling the backends, and closing connections are left out. Relaying bytes with `io.Copy` and `io.TeeReader` is left out too. The primary capture and the request text are parameters of the comparison.
- The goroutines and the `done` channel are left out. The comparison is modelled as running after the secondary capture loop has finished, which is what waiting on `done` guarantees.
- Capture.CaptureSecondary: the one-second read deadline and the clock are not modelled. A read that times out is one more `Err` outcome in the read script.
- Capture.CaptureSecondary: an endless run of successful non-empty reads, each less than one second after the last (a streaming response), cannot be expressed: the read script is finite and every read past its end fails, so the modelled loop always ends. On such a run the Go loop never ends, `done` is never closed, and the comparison never runs.
- Capture.CaptureSecondary: the 32 KiB read buffer is not modelled. A chunk may have any length, and the buffer size does not change what is appended.
- Comparator.CompareResponses: the secondary connection is modelled only as reachable or not. A dial failure is `Unreachable`. The warning logged when the secondary dial fails (httptee.go:44) is not part of the log.
- HeaderDiff.IsLineDiffer: the diffmatchpatch line diff (`DiffLinesToChars`, `DiffMain`, `DiffCharsToLines`) is a foreign library and is not modelled. The model is parameterised over the engine. Properties that depend on it assume only that it returns a valid edit script, and no edits for equal inputs. Minimality of the script is not assumed.
- HeaderDiff.PrintDiff: a diff operation may span several header lines, and only the first of them gets the "- " or "+ " prefix. How the engine groups lines into operations belongs to the engine and is not modelled.
- GoStrings.SplitN: requires a non-empty separator. Go's behaviour for an empty separator (splitting after each UTF-8 sequence, at most `n` pieces) is not modelled, because the comparator always splits on CR LF CR LF or CR LF.
- StringSort.SortStrings: Go's `sort.Strings` uses pattern-defeating quicksort; the model uses an insertion sort. `SortedUnique` shows that any correct sort gives the same result.
- Strings are sequences of bytes, one `char` per byte. No character encoding is interpreted.
- Logging levels (the warning level of "Response missing", the debug messages) and log formatting are not modelled. The log is the sequence of logged messages.
- Command-line flags and `main` are not modelled.
