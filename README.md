# Customer e-mail domain tally, modelled in Dafny

This project models the core of a small Go utility, `interview.go` (package
`jonathan`). The utility reads a CSV file of customers, finds the e-mail
column in its header, takes the domain of every e-mail address, and returns
the number of addresses per domain, sorted by domain name. Rows it cannot
use are logged and skipped.

The model has one module per component of that file:

- `Wrappers` (`wrappers.dfy`): `Option` and `Result`.
- `Strings` (`strings.dfy`): the string operations the code calls. These are
  ASCII lower-casing, substring search, and the last index of a character.
  It also holds Go's `<` on strings as `LexLess`, proved to be a strict total
  order.
- `Column` (`column.dfy`): `findEmailColumn`. `EmailColumn` is the
  specification: the first exact heading, otherwise the first close
  heading, otherwise none. `FindEmailColumn` is the single-pass loop with
  its remembered close match, proved against `EmailColumn`.
- `Address` (`address.dfy`): `extractDomain`. The mailbox parser is a
  library call, so it is passed in as a function value `parse`. The model
  covers what the code does with the parser's answer: it passes on the
  parser's error, reports a missing `@`, and splits at the last `@`.
- `Stats` (`stats.dfy`): the `DomainStats` record and the
  `DomainStatsSlice` methods `Len`, `Less` and `Swap` over an array. `Sort`
  is an in-place sort that changes the array only through `Swap`. It is
  proved to leave the array sorted and a permutation of the input.
- `Tally` (`tally.dfy`): `TallyDomainStats`. The input is the sequence of
  records the CSV reader returns; each is either a list of fields or a
  decode error. The log is a ghost sequence of events, each holding a line
  number and an error. `CountRows` is the row loop with its line counter.
  `CollectStats` copies the map into the slice. The method then sorts.
  `IsReport` states the result the Go code promises: strictly ascending by
  domain name, one record per distinct good domain holding its number of
  occurrences, and counts that add up to the number of good rows.

Where the comments and the code disagree, the model follows the code:

- The comments on `DomainStats` (interview.go:19-23) say that domain names
  are lower-cased. The code never lower-cases them: the domain exactly as
  extracted is the map key (interview.go:72-75). `Tally.DomainCaseKept`
  shows two spellings of one domain getting two records.
- The code has no counting of unique addresses and no case-insensitive
  mode, so the model has neither.

## Model

| member | source | states |
|---|---|---|
| `Strings.ToLower` | interview.go:105 | lower-cases ASCII letters and leaves every other character alone; `Column.MatchIgnoresCase` states that headings are matched the same before and after it |
| `Strings.Contains` | interview.go:111 | `sub` occurs somewhere in `s` as a contiguous piece; `Column.ExactIsClose` and `Column.LongHeadings` state what it gives for the headings |
| `Strings.LexLess` | interview.go:38 | Go's `<` on strings: the first differing character decides, and a proper prefix sorts first; the four `LexLess*` lemmas prove it a strict total order |
| `Strings.LastIndex` | interview.go:94-95 | the result is -1 exactly when `@` is absent; otherwise it is an index holding `@` with no `@` after it |
| `Strings.LastIndexOfJoin` | interview.go:92-98 | in `p + "@" + d` where `d` has no `@`, the last `@` is the one right after `p` |
| `Strings.LexLessIrreflexive` | interview.go:38 | no domain name sorts before itself |
| `Strings.LexLessTransitive` | interview.go:38 | the string order used by `Less` is transitive |
| `Strings.LexLessTotal` | interview.go:38 | of two different domain names, one sorts before the other |
| `Strings.LexLessAsymmetric` | interview.go:38 | two names never sort before each other |
| `Strings.NotLessTransitive` | interview.go:38 | "not before" is transitive, which sorting by `Less` relies on |
| `Column.IsExact` | interview.go:105-106 | a heading is exact when its lower-cased form is "email" or "e-mail"; `Column.ExactIsClose`, `Column.MatchIgnoresCase` and `Column.ShortHeadings` state what follows |
| `Column.IsClose` | interview.go:111 | a heading is close when its lower-cased form contains "email" or "e-mail"; `Column.ExactIsClose`, `Column.MatchIgnoresCase` and `Column.LongHeadings` state what follows |
| `Column.MatchIgnoresCase` | interview.go:105-111 | a heading and its lower-cased form are classified alike, exact and close, so matching ignores letter case |
| `Column.ExactIsClose` | interview.go:104-115 | an exact heading also counts as a close one |
| `Column.FirstIndex` | interview.go:104-116 | returns the smallest index whose heading qualifies, or none when no heading does |
| `Column.EmailColumn` | interview.go:101-121 | an exact heading wins and gives the smallest exact index, even when a close heading comes earlier; with no exact heading, the smallest close index; none exactly when no heading is close; any index is in bounds |
| `Column.FindEmailColumn` | interview.go:101-121 | the single pass returns the column `EmailColumn` chooses; otherwise column 0 and the error "No email column found" |
| `Column.ShortHeadings` | interview_test.go:26-53 | of the test headings, "email" is exact and "one", "two", "three" and "four" are not close |
| `Column.LongHeadings` | interview_test.go:26-53 | the test headings "the_email_address", "the_email" and "some_email_address" are close but not exact |
| `Column.HeadingTable` | interview_test.go:26-53 | the five header cases of the tests select columns 1, 1, 1, 2 and none |
| `Address.ExtractDomain` | interview.go:87-99 | a parser error is passed on with an empty domain; a parsed address without `@` gives "No @ in email address"; otherwise no error, the domain has no `@`, and the address is some prefix + "@" + the domain |
| `Address.ExtractDomainOfJoin` | interview.go:92-98 | the converse: if the parsed address is `local + "@" + domain` and `domain` has no `@`, the result is that domain, even when `local` holds `@` |
| `Address.AddressTable` | interview_test.go:173-206 | given the parser's answer for each of the eight test inputs, the extracted domain and error are the ones the tests expect: "foo.com" for the four good addresses, the parser's own error for the four bad ones |
| `Address.QuotedLocalPart` | interview.go:92-98 | for `"a@b"@foo.com`, which the parser unquotes to `a@b@foo.com`, the domain is "foo.com": the split is at the last `@` |
| `Stats.Len` | interview.go:35 | the length is the number of records in the slice's contents |
| `Stats.Less` | interview.go:38 | record i sorts before record j when its domain name is smaller; two records never sort before each other, and of two with different names exactly one sorts first |
| `Stats.Swap` | interview.go:41 | records i and j are exchanged, nothing else changes, and the contents are a permutation of the old ones |
| `Stats.Sort` | interview.go:83 | after `sort.Sort` through `Less` and `Swap`, no record sorts before an earlier one, and the slice is a permutation of the one before |
| `Stats.SumConcat` | interview_test.go:141-147 | the total count of a concatenation is the sum of the parts' totals |
| `Stats.SumPermutation` | interview.go:83 | sorting does not change the total address count |
| `Stats.DistinctAt` | interview.go:79-82 | in a slice without repeated records, two positions hold different records |
| `Stats.AscendingUnique` | interview.go:79-83 | two strictly ascending slices with the same records are equal |
| `Tally.HeaderColumn` | interview.go:48-55 | a column it selects is an index into the decoded header |
| `Tally.Classify` | interview.go:59-71 | one data row's fate: a decode error or an address error is logged under the row's line, otherwise its domain is counted; `Tally.ClassifyOutcome` states it |
| `Tally.ClassifyOutcome` | interview.go:59-71 | a skipped row's event carries the line it was given; a decode error is logged with the reader's reason; a decoded row is skipped exactly when domain extraction fails, and then logged with the extraction error; otherwise the extracted domain is counted, and it has no `@` |
| `Tally.RowsAccounted` | interview.go:56-71 | each data row is either counted or logged, so counted + logged = data rows |
| `Tally.RowStep` | interview.go:59-77 | a skipped row adds its event to the log and leaves the tally unchanged; a good row adds its domain and logs nothing |
| `Tally.LogNamesItsRow` | interview.go:56-70 | every logged event for the data row at index k names k + 2, the counter value the code logs as the row's line (the header is record 1), and carries that row's own decode or address error |
| `Tally.LogAscending` | interview.go:56-70 | log lines appear in strictly increasing line order |
| `Tally.SkippedRowsLogged` | interview.go:59-70 | every row that fails to decode or to yield a domain has its event in the log |
| `Tally.Bump` | interview.go:72-77 | one more address for a domain, creating its record at the first sighting; `Tally.BumpEffect` states it |
| `Tally.BumpEffect` | interview.go:72-77 | the domain becomes a key; a new domain gets a record with one address under its own name, a known one gets one more address; every other record is unchanged; records stay keyed by name |
| `Tally.TallyOf` | interview.go:56-78 | the map after counting the good domains in order from an empty map; `Tally.TallyOfCounts` and `Tally.TallyTotal` state what it holds |
| `Tally.TallyOfCounts` | interview.go:72-77 | the tally has a record exactly for each domain seen, under its own name, counting that domain's occurrences |
| `Tally.DomainCaseKept` | interview.go:72-75 | domains differing only in letter case are counted apart |
| `Tally.TallyTotal` | interview.go:72-77 | the counts in the tally add up to the number of good rows |
| `Tally.ReportShape` | interview.go:72-83 | a result has no repeated domain, every count is at least 1, and with no good rows the result is empty (not an error) |
| `Tally.ReportUnique` | interview.go:79-83 | the result is determined by the input alone, whatever order the map yields its records in |
| `Tally.SortedKeyedAscending` | interview.go:79-83 | a sorted slice of distinct records taken from the map is strictly ascending |
| `Tally.CountRows` | interview.go:56-78 | the row loop's map is the tally of the good domains, and its log is the events of the bad rows with their line numbers |
| `Tally.CollectStats` | interview.go:79-82 | the new slice holds each record of the map exactly once, and its total equals the map's |
| `Tally.TallyDomainStats` | interview.go:45-85 | a missing or undecodable header, or no e-mail column, gives that error, no result and no log; otherwise there is no error, the result satisfies `IsReport` for the good domains, the log is exactly the bad rows' events, and total count + log lines = data rows |

## Left out

- The mailbox grammar of `net/mail.ParseAddress` and its error texts are not modelled. This is a foreign library; the parser is the parameter `parse`, and only its outcome (an address or an error text) is used.
- CSV decoding by `encoding/csv` (quoting, field counts) is not modelled. This is a foreign library; the input is the decoded records. The reader's guarantee that data rows are as wide as the header is the precondition `DataRowsFit`. Without it, `row[emailColumn]` could index out of range.
- The reader's end-of-input error is the text "EOF". It is what an empty input returns from the header read. The end of the data rows is the end of the sequence.
- The input is a finite sequence of records ending at end of input. A reader whose errors never stop makes the Go row loop log and retry forever; the model does not capture that, and its `TallyDomainStats` always returns.
- The line number in a log event is the code's `counter`: the number of records read so far, the header included. `encoding/csv` skips blank lines, and a quoted field can span several lines, so this number can differ from the line in the file. The model keeps the code's number.
- `log.Printf` formatting and timestamps are I/O and are left out. Each log line is a ghost `LogEvent` with its line number and error text.
- `strings.ToLower` lower-cases only ASCII letters here. Go's full Unicode case mapping is not modelled.
- Go compares strings byte by byte in UTF-8. The model compares characters (code points), which gives the same order on valid UTF-8 text.
- `Addresses` and the line counter are Go `int`s. The model uses unbounded integers because 64-bit overflow would need more than 2^63 rows.
- The slice of `*DomainStats` pointers is modelled as an array of record values. The map and the returned slice share pointers in Go, but the map is dropped on return, so nothing can observe the sharing.
- `sort.Sort`'s own algorithm is not modelled. `Stats.Sort` is an insertion sort over the same `Len`/`Less`/`Swap`. Domain names are unique, so every correct sort gives the same result (`Tally.ReportUnique`).
- `make([]*DomainStats, 0, len(stats))` with `append` is modelled as an array of length `len(stats)` filled from the front. The capacity is exact, so `append` never reallocates.
- The iteration order of a Go map is unspecified. `CollectStats` picks each next key by an arbitrary choice.
- The test harness, its `customers.csv` fixture and its logger redirection are file I/O and are left out. Only the heading and address tables appear, as `Column.HeadingTable` and `Address.AddressTable`.
