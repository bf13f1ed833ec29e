# domainhunter: the domain checker core, in Dafny

`check_domains.py` reads a file of candidate domain names. It strips each line,
keeps the lines that a domain-name regular expression accepts, and queues them.
Worker threads then take names off the queue and resolve each one. A name whose
lookup raises any `socket.gaierror` is treated as "available". That exception
covers every address-lookup failure, not only "no such name": a temporary
resolver failure also counts as available. The model's `NotFound` outcome
stands for any `gaierror`.
Workers record every verdict in shared counters and a result list, under a lock.

This project models that core:

- `DomainName` (`domain_name.dfy`) covers `DOMAIN_REGEX` and `is_valid_domain`.
  The regex is restated as a check on the labels between dots rather than as a
  regex engine. `ValidIffMatchesPattern` proves that this check accepts exactly
  the strings that some well-formed list of labels, joined by dots, spells.
  Other lemmas state what an accepted name looks like and which boundary cases
  are rejected: no dot, empty, dots at the ends or doubled, a foreign character,
  a label longer than 63 characters, a final label of one character.
- `InputLines` (`input_lines.dfy`) covers the line filter of `load_domains`:
  - `line.strip()` on ASCII whitespace;
  - the three-way decision queue / warn / drop silently;
  - the queued names and the warnings as functions of the lines read.
- `Availability` (`availability.dfy`) covers the verdict of
  `check_domain_availability`. Each outcome of the resolver call becomes one
  case of `LookupOutcome`. It also has the list of available names among a
  sequence of checked names.
- `DomainCheck` (`domain_checker.dfy`) covers the timeout clamp and the
  `DomainChecker` object:
  - `queue`, `availableDomains`, `domainsChecked` and `domainsAvailable` are
    fields that its methods update;
  - `LoadDomains` is the filter loop;
  - `Record` is the locked block of a worker;
  - `Drain` is the workers' loop, run sequentially;
  - `Run` is the load-then-drain orchestration.

The resolver is a parameter `lookup: string -> LookupOutcome`, so a name gets
the same outcome every time it is looked up. The input file is a parameter of
type `InputFile`, with three cases:

- it does not exist;
- reading it raised an exception after some lines;
- it was read to the end.

The regex at `check_domains.py:38` accepts a digit at the start of the final
label (`a.1b`), and so does the model.

## Model

| member | source | states |
|---|---|---|
| DomainName.ValidIffMatchesPattern | check_domains.py:37-39 | the label check accepts a string exactly when the anchored pattern `(LABEL '.')+ FINAL` matches it: both directions, with labels of 1..63 characters and a final label of 2..63 |
| DomainName.AcceptedShape | check_domains.py:63-72 | every accepted name has a dot and at least 4 characters; it uses only letters, digits, hyphens and dots, and starts and ends with a letter or digit; both neighbours of every dot are letters or digits; a hyphen is never first, last, or next to a dot |
| DomainName.AcceptedLabels | check_domains.py:37-39 | every piece between the dots of an accepted name has 1..63 characters, starts and ends with a letter or digit, and has hyphens only inside; the last piece has at least 2 characters |
| DomainName.RejectsWithoutDot | check_domains.py:37-39 | a single label with no dot (e.g. `localhost`) is rejected |
| DomainName.RejectsEmpty | check_domains.py:63-72 | the empty string is rejected |
| DomainName.RejectsMisplacedDots | check_domains.py:37-39 | a leading dot, a trailing dot, or two dots in a row cause rejection |
| DomainName.RejectsForeignCharacter | check_domains.py:37-39 | any character other than an ASCII letter, a digit, `-` or `.` causes rejection |
| DomainName.RejectsLongPiece | check_domains.py:37-39 | a piece between dots longer than 63 characters causes rejection |
| DomainName.RejectsOverlongLabel | check_domains.py:37-39 | a label of more than 63 characters is rejected whether it is first, last or in the middle |
| DomainName.PrependLabel | check_domains.py:37-39 | the pattern does not limit total length: adding a valid label in front of an accepted name keeps it accepted |
| DomainName.TwoCharacterFinalLabel | check_domains.py:38 | `a.bc` is accepted: a final label of two characters is enough |
| DomainName.OneCharacterFinalLabel | check_domains.py:38 | `a.b` is rejected: the final label needs at least two characters, unlike the others |
| DomainName.JoinSplit | check_domains.py:37-39 | cutting a string at its dots and joining the pieces with dots gives back the string |
| DomainName.SplitPiecesDotFree | check_domains.py:37-39 | no piece between the dots of a string contains a dot |
| DomainName.SplitAtDot | check_domains.py:37-39 | cutting `a.b` at its dots gives the pieces of `a` followed by the pieces of `b` |
| DomainName.SplitJoin | check_domains.py:37-39 | joining dot-free labels with dots and cutting at the dots gives back the labels |
| InputLines.StripRemovesOuterWhitespace | check_domains.py:84 | `strip()` leaves a contiguous infix of the line. Everything before and after it is whitespace. It neither starts nor ends with whitespace. It is empty exactly when the line is all whitespace |
| InputLines.StripIdempotent | check_domains.py:84 | stripping an already stripped line changes nothing |
| InputLines.StripNewline | check_domains.py:82-84 | a line read with its line feed strips back to its text |
| InputLines.ValidDomainIsStripped | check_domains.py:84-85 | an accepted name has no surrounding whitespace |
| InputLines.AcceptedLineQueued | check_domains.py:84-86 | a line holding an accepted name is queued as that name |
| InputLines.RejectedLineSkipped | check_domains.py:84-88 | a line holding a non-empty rejected word is skipped with a warning naming the stripped word |
| InputLines.EveryLineAccountedFor | check_domains.py:82-88 | every line is exactly one of queued, warned about, or blank: the three counts add up to the number of lines |
| InputLines.QueuedIffValidLine | check_domains.py:82-86 | a name is queued exactly when the recogniser accepts it and some line strips to it |
| InputLines.QueuedAreValid | check_domains.py:85-86 | every queued name is accepted and already stripped |
| InputLines.WarningsAreRejected | check_domains.py:87-88 | every warning names a non-empty, stripped, rejected line |
| InputLines.WarnedIffRejectedLine | check_domains.py:84-88 | a word is warned about exactly when it is non-empty, the recogniser rejects it, and some line strips to it |
| InputLines.BlankLineIgnored | check_domains.py:83-87 | a line that strips to nothing, wherever it stands, changes neither the queue nor the warnings |
| InputLines.SomeQueuedIffSomeValidLine | check_domains.py:90-91 | something is queued exactly when some line strips to an accepted name |
| Availability.IsAvailable | check_domains.py:106-120 | the verdict is "available" exactly when the lookup ended in "not found" |
| Availability.VerdictCases | check_domains.py:106-120 | a resolved name is not available and draws no warning; a timeout or other error draws a warning and is not available |
| Availability.AvailableAmong | check_domains.py:143-145 | the available names are at most as many as the names checked, each one of them, and each not found |
| Availability.AvailableAmongAppend | check_domains.py:131-145 | checking two batches one after the other lists the available names of the first, then those of the second |
| Availability.AvailableAmongMultiplicity | check_domains.py:139-145 | a name is listed as available exactly as often as it was checked when its lookup says not found, and never otherwise; so for input without duplicates each available name appears once |
| DomainCheck.ClampTimeout | check_domains.py:54 | the timeout never exceeds 25. A request of at most 25 is kept as is; a larger one becomes 25 |
| DomainCheck.DomainChecker.constructor | check_domains.py:52-61 | the timeout is the clamped request. Queue and result list are empty, and both counters are 0 |
| DomainCheck.DomainChecker.LoadDomains | check_domains.py:74-95 | the queue grows by the accepted stripped lines in order, and the warnings are the rejected non-empty stripped lines. For a missing file nothing is read and the result is false. Otherwise the result is true exactly when the whole file was read and the queue is non-empty |
| DomainCheck.DomainChecker.Record | check_domains.py:139-148 | the checked count goes up by one. An available name also raises the available count by one and is appended to the list; nothing else changes. The available count stays equal to the list's length and at most the checked count |
| DomainCheck.DomainChecker.Drain | check_domains.py:131-159 | after draining, the queue is empty and the checked count has grown by the queue's length. The list has grown by exactly the queued names whose lookup says not found, in queue order. The counter invariant still holds |
| DomainCheck.DomainChecker.Run | check_domains.py:163-217 | a failed load stops with the counters untouched. Otherwise every queued name is checked once and the available ones are appended; success holds exactly when the file was read and something is queued |
| DomainCheck.AvailableIffListedAndNotFound | check_domains.py:82-145 | a name is reported available exactly when some input line strips to it, the recogniser accepts it, and its lookup says not found |
| DomainCheck.SampleRun | check_domains.py:82-145 | for the lines registered name, unregistered name, blank line and rejected word, both names are queued in order and the word is the only warning. Only the unregistered name is available |
| DomainCheck.UnderscoreRejected | check_domains.py:37-39 | `bad_domain!` is rejected |
| DomainCheck.LineFeedIsBlank | check_domains.py:83-87 | an empty line, i.e. a bare line feed, is dropped silently |

## Left out

- Threads, the lock itself, `queue.Queue` blocking with its 0.5 s timeout, `task_done`/`join`, `stop_event` and `KeyboardInterrupt`. The queue is drained by one sequential loop in which each step is one locked critical section. Any interleaving of workers that each take distinct names and update under the lock gives the same counts and the same set of available names. Only the order of `available_domains` can differ, and the model fixes queue order.
- `socket.gethostbyname` and `socket.setdefaulttimeout`: the resolver becomes the `lookup` parameter, and the clamped timeout is stored but not applied to anything.
- DomainCheck.DomainChecker.Run: its contract describes the source only when `num_threads >= 1` and the clamped timeout is at least 0. Otherwise no name is ever checked. With `-t 0` or `-t -1`, which argparse accepts (check_domains.py:225-226), `range(self.num_threads)` at check_domains.py:182 starts no worker. With a negative timeout such as -1, `min(timeout, 25)` (check_domains.py:54) lets it through. Each worker then calls `socket.setdefaulttimeout(-1)` at check_domains.py:128, before its `try`, which raises `ValueError`, so every worker dies before taking a name. In both cases the loaded queue stays non-empty and the progress loop at check_domains.py:190-196 never ends. Only a `KeyboardInterrupt` stops it, after which `run` returns True with no name checked (check_domains.py:201-217). `Run` instead drains the whole queue. `ClampTimeout` keeps the source's missing lower bound.
- File I/O other than reading input lines: the output file's header, appending each available name to it, the timestamped file name, and failures to write. A failed write after the counters and list have been updated only loses the file line. The worker's generic `except` branch (lines 156-159) is therefore not modelled.
- Logging, the progress percentage and its 2-second polling loop, `argparse`, `sys.exit` and `main`. `num_threads` is not a field of the model; see the `Run` line above for what a count below 1 does.
- Availability.AvailableAmong: the lookup is a function, so repeated lookups of one name are assumed to agree. The source looks a duplicated queue entry up once per occurrence, and two DNS answers can differ. `AvailableAmongMultiplicity`, `AvailableIffListedAndNotFound` and `Drain` rely on this.
- DomainName.IsValidDomain: Python's `$` also matches before a final line feed, so `is_valid_domain("a.bc\n")` is true in Python but false here. `load_domains` only ever passes stripped lines, so this cannot be observed through it.
- InputLines.Strip: strips ASCII whitespace only. Python's `str.strip()` also strips Unicode spaces such as U+00A0 and U+2028, and those are not modelled.
- Text decoding of the input file: the lines are given as strings. A decoding error is one way of reaching the `Unreadable` case.
