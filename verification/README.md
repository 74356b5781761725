# log_guarder in Dafny

log_guarder reads an SSH authentication log line by line. For every line it recognises as a
password attempt (a timestamp, then `Failed` or `Accepted`, `password for`, an optional
`invalid user`, the user name, `from` and the source address) it builds a `LogEntry`. It counts the
failed attempts of each source address, raises an alert at the moment a count reaches the
threshold, and finally prints how many entries it processed and the addresses with at least
`threshold` failures, most failures first.

The model has six modules:

- `Models` (models.dfy): the `LogEntry` record.
- `Chars` (chars.dfy): the character classes `\s`, `\S`, `\d`, `\w` and `.` of a Python regular
  expression, runs of them, and `str.strip()`.
- `Engine` (engine.dfy): `LOG_PATTERN` and `parse_line`. On the declarative side, `IsMatch` says
  when the pattern matches a line at given split points, and `SplitFirst` gives the order in which
  Python's backtracking engine tries those matches. The matcher side is a search written in that
  order, from `Search` (the start positions of `re.search`) down to `MatchTail` (the greedy `\S+`).
  Each matcher function comes with a pair of lemmas. The first shows that whatever it returns is a
  match. The second shows that it finds a match whenever one exists, and that no other match comes
  before it. `Parse` strips the line, takes the first match and builds the record from its named
  groups.
- `ParseFacts` (parse_facts.dfy): what `parse_line` promises, stated against the declarative
  side. It covers when there is no entry, which match is used, and what each field of the record
  holds. It also covers the cases the parser's tests exercise: the empty "ghost" user name, the
  consumed `invalid user` phrase, the longest address, and a line of prose.
- `SshdLines` (sshd_lines.dfy): `parse_line` on concrete password lines. `SshdLine` builds a
  line from its parts, and `SshdLineParses` shows that the record holds exactly those parts. It
  does so by exhibiting the match and proving that `re.search` tries no other match before it. The
  lines of the parser's tests are instances.
- `Summary` (summary.dfy): the flagged dictionary, the stable sort by count (descending) and the
  two outcomes of the security summary.
- `Analysis` (analysis.dfy): the loop of `main`.
  - Specification functions: `Entries` (the records parsed from the lines), `FailureCount`,
    `Keys` (the failure dictionary's keys in insertion order), `FailureMap` and `Alerts` (the
    addresses alerted, in order).
  - Lemmas relating these to one another.
  - The loop itself, as the methods `Ingest` (one record) and `Analyze` (all lines, then the
    summary). Their contracts tie their results to the specification functions.

## Model

| member | source | states |
|---|---|---|
| Chars.Strip | parser/engine.py:8 | the stripped line is a slice of the line, has no whitespace at either end, and only whitespace was removed around it |
| Chars.StripIdempotent | parser/engine.py:8 | stripping an already stripped line changes nothing |
| Engine.MatchTailSound | parser/engine.py:6 | what the matcher returns for `\s+from\s+(?P<ip>\S+)` is a match of that part of the pattern |
| Engine.MatchTailFirst | parser/engine.py:6 | whenever that part can match, the matcher finds it, with the longest address |
| Engine.FindRestSound | parser/engine.py:6 | what the matcher returns for the lazy `(?P<user>.*?)` plus the tail is a match |
| Engine.FindRestFirst | parser/engine.py:6 | whenever the user group and tail can match, the matcher finds the shortest name (then the longest address) |
| Engine.FindNameSound | parser/engine.py:6 | the name start found after `invalid\s+user` (giving back spaces of the greedy `\s+`) starts a match of the rest |
| Engine.FindNameFirst | parser/engine.py:6 | every viable name start after `invalid\s+user` is found, furthest right first |
| Engine.MatchInvalidSound | parser/engine.py:6 | a taken `(?:invalid\s+user\s+)` group is a match of the group and of the rest |
| Engine.MatchInvalidFirst | parser/engine.py:6 | whenever the group can be taken, the matcher takes it, at the furthest right name start |
| Engine.FindAfterForSound | parser/engine.py:6 | what is found after `for` (`\s+`, the optional group, the name, the tail) is a match |
| Engine.FindAfterForFirst | parser/engine.py:6 | whenever the part after `for` can match, the matcher finds the first match in backtracking order |
| Engine.StatusAtFinds | parser/engine.py:6 | at most one of `Failed` and `Accepted` occurs at a position, and the alternation finds it |
| Engine.MatchBodySound | parser/engine.py:6 | what is found from the status keyword on is a match of that part of the pattern |
| Engine.BodyPrefixUnique | parser/engine.py:6 | the keyword and the two `\s+` before `for` have only one way to match |
| Engine.MatchBodyFirst | parser/engine.py:6 | whenever the part from the keyword on can match, the matcher finds the first such match |
| Engine.FindBodySound | parser/engine.py:6 | the keyword position the lazy `.*?` stops at starts a match of the body |
| Engine.FindBodyFirst | parser/engine.py:6 | the lazy `.*?` stops at the earliest keyword position that starts a body match |
| Engine.MatchStampSound | parser/engine.py:6 | what is found for the timestamp group is a match of `\w{3}\s+\d+\s\d{2}:\d{2}:\d{2}` |
| Engine.MatchStampUnique | parser/engine.py:6 | the timestamp group has only one way to match at a position, and the matcher finds it |
| Engine.MatchAtSound | parser/engine.py:6 | a match found at a fixed start is a match of the whole pattern |
| Engine.MatchAtFirst | parser/engine.py:6 | at a start where the pattern can match, the matcher finds the first match in backtracking order |
| Engine.SearchSound | parser/engine.py:9 | what `re.search` finds is a match of the whole pattern |
| Engine.SearchFirst | parser/engine.py:9 | `re.search` finds a match whenever there is one, and no match comes before the one it finds |
| Engine.FirstMatch | parser/engine.py:9 | the match found is a match of `LOG_PATTERN` on the line |
| Engine.FirstMatchIsFirst | parser/engine.py:9 | whenever the line has a match, one is found, and it is tried before every other match |
| ParseFacts.FirstMatchUnique | parser/engine.py:9 | two matches that each come first are the same match, so the match `re.search` reports is determined |
| ParseFacts.MatchOrderAntisymmetric | parser/engine.py:6 | the backtracking order never puts two different matches each before the other |
| ParseFacts.FirstMatchSpec | parser/engine.py:9-12 | no match is found exactly when the line has no match, and a match found is the first one |
| Engine.Parse | parser/engine.py:7-20 | a record returned has `Failed` or `Accepted` as status, the keyword the status group matched |
| ParseFacts.ParseSpec | parser/engine.py:7-20 | `parse_line` returns None exactly when the stripped line has no match of `LOG_PATTERN`; otherwise it returns the record built from the first match |
| ParseFacts.ParseStripInvariant | parser/engine.py:8-19 | parsing an already stripped line gives the same result, and `raw_content` is the stripped line |
| ParseFacts.NoColonNoEntry | parser/engine.py:6-12 | a line without `:` (so without a clock) gives no entry |
| ParseFacts.GarbageLine | tests/test_parser.py:49-54 | the sentence used as random garbage gives no entry |
| ParseFacts.TimestampOfMatch | parser/engine.py:15 | the timestamp group of a match is itself a timestamp of the pattern's shape |
| ParseFacts.EntryFields | parser/engine.py:14-20 | the record of a match has the stripped line as raw content and the matched keyword as status, a timestamp of the pattern's shape, a user name without line feeds and a non-empty address without whitespace |
| ParseFacts.NameOfMatch | parser/engine.py:17 | the user group (`.*?`) never holds a line feed |
| ParseFacts.AddressOfMatch | parser/engine.py:18 | the address group (`\S+`) is non-empty and holds no whitespace |
| ParseFacts.EntryInOrder | parser/engine.py:14-19 | the timestamp, the status, the user name and the address occur in the raw content in that order, without overlapping |
| ParseFacts.ParseFields | parser/engine.py:7-20 | every parsed record has status `Failed` or `Accepted`, a well-shaped timestamp, a name without line feeds, a non-empty address without whitespace, and its fields in order in its raw content |
| ParseFacts.AddressMaximal | parser/engine.py:6 | the address of the first match runs to the end of the line or to whitespace |
| ParseFacts.NameShortest | parser/engine.py:6 | no shorter user name is followed by `\s+from\s+\S+`: the lazy group takes the shortest name |
| ParseFacts.EmptyName | tests/test_parser.py:24-31 | the user name is empty exactly when `\s+from\s+\S+` follows right where the name starts, as on the ghost-user line |
| ParseFacts.InvalidConsumed | tests/test_parser.py:41-47 | when `invalid user` can be consumed before a matching name, the first match consumes it and the name starts after it |
| SshdLines.SshdLineParses | parser/engine.py:6-20 | a password line (timestamp, host text, `Failed` or `Accepted`, `password for`, optionally `invalid user`, the name, `from`, the address, and trailing text) parses into exactly its timestamp, status, name and address, with the line as raw content |
| SshdLines.FirstWhen | parser/engine.py:9 | a match at the start of the line is the one `re.search` reports when no keyword occurs before its own and no reading of the text after `for` is tried before its own |
| SshdLines.TestLineParses | tests/test_parser.py:4-47 | a test line of that form, at `Feb 03 12:mm:00` with process id and ` port 22 ssh2` after the address, parses into its fields |
| SshdLines.ValidLineParses | tests/test_parser.py:4-13 | the failed password line for `ritam` from `192.168.1.1` parses into those fields with status `Failed` |
| SshdLines.AcceptedLineParses | tests/test_parser.py:15-22 | the accepted password line for `admin` parses with status `Accepted` and name `admin` |
| SshdLines.GhostLineParses | tests/test_parser.py:24-31 | the line with nothing between the two spaces parses with the empty name and address `192.168.1.1` |
| SshdLines.MarkupLineParses | tests/test_parser.py:33-39 | the line whose name is `[bold red]admin[/bold red]` parses with that name, as written |
| SshdLines.InvalidUserLineParses | tests/test_parser.py:41-47 | the `invalid user hacker` line parses with name `hacker` |
| Summary.Flagged | main.py:36 | the flagged items are exactly the addresses of the dictionary with their counts, where the count is at least the threshold, in the dictionary's insertion order |
| Summary.SortByCount | main.py:40 | the sorted items are a permutation of the items, ordered by count, most first |
| Summary.SortStable | main.py:40 | items with the same count keep their relative order (Python's sort is stable) |
| Summary.SortUnique | main.py:40 | only one sequence is both sorted by count and stable, so `SortByCount` is `sorted(..., reverse=True)` |
| Summary.Summarize | main.py:38-43 | "no suspicious activity" exactly when every count is below the threshold; otherwise the offenders are non-empty, sorted by count, a permutation of the flagged items, and offenders with equal counts keep the dictionary's insertion order |
| Analysis.FailureIsFailedStatus | main.py:27 | `status.lower() == "failed"` holds for `Failed` and not for `Accepted` |
| Analysis.ParsedFailure | main.py:27 | a parsed record counts as a failure exactly when its status is `Failed` |
| Analysis.EntriesStep | main.py:20-23 | the records of one more line are the earlier records plus that line's record, if it parses |
| Analysis.FailureCountStep | main.py:27-28 | one more record raises its own address's failure count by one if it is a failure, and leaves every other count alone |
| Analysis.FailureCountMonotone | main.py:28 | failure counts never decrease as records are added |
| Analysis.KeysSpec | main.py:13-28 | the dictionary's keys are exactly the addresses with at least one failure, each listed once |
| Analysis.AlertsSpec | main.py:30-31 | an address is alerted exactly when its failure count reached a threshold of at least 1, and it is alerted only once |
| Analysis.NoAlertsBelowOne | main.py:30-31 | with a threshold of 0 or less no alert is ever raised |
| Analysis.FlaggedSpec | main.py:36 | an address is flagged with its failure count exactly when that count is positive and at least the threshold |
| Analysis.VerdictSpec | main.py:36-43 | the summary says "no suspicious activity" exactly when every address with failures has fewer than threshold of them |
| Analysis.AlertedIsFlagged | main.py:30-36 | every alerted address is among the flagged ones |
| Analysis.VerdictMatchesAlerts | main.py:30-43 | with a threshold of at least 1, the summary lists offenders exactly when some alert was raised |
| Analysis.Step | main.py:25-31 | one more record extends the keys, counts and alerts exactly as the loop body does |
| Analysis.Ingest | main.py:25-31 | one pass of the loop body on a parsed record takes the dictionary (keys in order and counts), the total and the alerts for the records so far to those for the records including it |
| Analysis.Analyze | main.py:13-43 | the total is the number of parsed lines, the alerts are those raised in order, and the summary is the verdict on the final dictionary |

## Left out

- Reading the command line is not modelled: the usage message, `sys.exit(1)`, the parse of the threshold and its default of 5 (main.py:6-11). The threshold is a parameter of `Analyze` and may be any integer, as in the source.
- Opening and reading the file is not modelled (main.py:16-20). The lines are a parameter of `Analyze`.
- Printing is not modelled (main.py:16, 31, 33-34, 39-43). Alerts are returned as the sequence of alerted addresses in order, and the summary as a `Verdict` value.
- The catch-all `except Exception` (main.py:45-46) is not modelled. Nothing in the modelled code raises.
- samples/populate_logs.py is not part of this model. It only generates sample input.
- The general `re` engine is not modelled. Only `LOG_PATTERN` is, by a matcher written for it.
- Chars.IsDigit and Chars.IsWord are ASCII only. Python's `\d` and `\w` on `str` also accept non-ASCII digits and letters, so a timestamp with such characters is recognised by the source and not by the model. `\s` and `str.strip()` use the full set of characters `str.isspace()` accepts.
- Analysis.Lower folds only ASCII letters. `str.lower()` folds all of Unicode. On the two statuses the parser can produce, both give the same answer (Analysis.ParsedFailure).
- The lines of tests/test_parser.py:4-47 are written as `SshdLine` applied to their parts (timestamp, host text, status, phrase, name, address, trailing text), whose concatenation is the test's string; the string literals themselves are not compared with those concatenations.
- SshdLines.SshdLineParses covers only the lines `SshdLines.WellFormed` admits:
  - the timestamp has the shape of the timestamp group;
  - the host text has no `F`, `A` or line feed;
  - the user name has no `f` or line feed and no space at either end;
  - without `invalid user`, the name does not start with `invalid`, and with it the name is not empty;
  - the address is non-empty and holds no whitespace;
  - the trailing text is empty, or starts with a space and does not end with one;
  - with an empty name, neither the address nor the trailing text holds an `f`.
  Other lines are covered only by the general lemmas: ParseSpec, ParseFields, EmptyName, InvalidConsumed, NameShortest and AddressMaximal.
- The failure dictionary is modelled as a map plus the sequence of its keys in insertion order, which is the iteration order of a Python dict.
