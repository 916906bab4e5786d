# goParseGitHubNames crawler core, in Dafny

The program crawls the GitHub users listing and stores every user in PostgreSQL.
It requests a page of users. It reads the URL of the next page from the `Link`
response header. It waits when the rate limit is nearly spent. It then writes
the page's users with one multi-row `INSERT` whose `?` markers `ReplaceSQL`
renumbers to PostgreSQL's `$1, $2, ...`.

The model is functional. The network, the clock and the JSON decoder are inputs.

| file | module | what it models |
|---|---|---|
| `wrappers.dfy` | `Wrappers` | `Option` and `Result` |
| `gostrings.dfy` | `GoStrings` | the Go library calls the core relies on: `strings.Index`, `strings.Count`, `strings.Replace` with limit 1, `strings.TrimSuffix`, `strconv.Itoa`, `strconv.Atoi` (64-bit range), 64-bit wrap-around |
| `placeholders.dfy` | `Placeholders` | `ReplaceSQL`; a reference left-to-right renumbering scan; how PostgreSQL reads `$n` parameters back |
| `batch.dfy` | `Batch` | the `User` record; the statement text and argument list built for one page |
| `pagination.dfy` | `Pagination` | the `<.*?>` match on the `Link` header; the URL requested for a cursor |
| `ratelimit.dfy` | `RateLimit` | the decision taken from `X-RateLimit-Remaining` and `X-RateLimit-Reset` |
| `crawl.dfy` | `Crawl` | one loop iteration with its failure order; a run over a finite sequence of responses |

Each operation is related to an independent definition:

- `ReplaceSQL` is compared with `Renumbered`, a left-to-right scan.
- The statement it produces is read back with `Parameters`, as PostgreSQL would read it.
- The regular expression is compared with a plain first-`<`/first-`>` reading.
- The rate-limit decision is compared with the instant at which the crawl resumes.
- The run is compared with the chain of single iterations.
- The URL requested for a cursor is stated for both the empty and the non-empty cursor, and a run is shown to request each extracted cursor in turn.

## Model

| member | source | states |
|---|---|---|
| Placeholders.ReplaceSQLRenumbers | main.go:107-113 | for every one-character marker that is neither `$` nor a digit, the count-then-replace-leftmost loop equals the left-to-right scan in which the k-th marker becomes `$k` and all other text is copied; no marker is left |
| Placeholders.ReplaceSQL | main.go:107-113 | with a non-empty pattern that does not occur, the text comes back unchanged |
| Placeholders.ReplaceFromRenumbers | main.go:109-111 | the loop invariant: after iterations 1..k-1 the text is the finished prefix, followed by the untouched rest; the remaining iterations renumber that rest from k |
| Placeholders.ParametersOfRenumbered | main.go:110 | after renumbering a `$`-free text where no marker is followed by a digit, the parameters read back are k, k+1, ..., one per marker, in order |
| Placeholders.ParametersAfterToken | main.go:110 | `$` followed by the decimal `strconv.Itoa(k)` and a non-digit reads back as parameter k |
| Placeholders.TokensAvoidMarkers | main.go:110 | a `$m` token never contains a marker character |
| Placeholders.CountSingle | main.go:108 | `strings.Count` with a one-character pattern is the number of occurrences of that character |
| GoStrings.IndexLeftmost | main.go:110 | `strings.Index` finds an occurrence, and it is the leftmost; -1 only when there is none |
| GoStrings.Index | main.go:110 | `strings.Index` answers -1 or a position at which the pattern fits inside the text (`IndexLeftmost` pins it down) |
| GoStrings.ReplaceFirst | main.go:110 | `strings.Replace` with limit 1 returns the text unchanged when the pattern does not occur, and otherwise grows by the replacement's length less the pattern's |
| GoStrings.ReplaceFirstLeftmost | main.go:110 | when the pattern occurs first at i, the replacement is spliced in at i in place of that one occurrence |
| GoStrings.ReplaceFirstAbsent | main.go:110 | when the pattern occurs nowhere, the text comes back unchanged |
| GoStrings.Count | main.go:108 | the empty pattern counts length+1; otherwise zero exactly when `Index` is -1, and the non-overlapping occurrences fit in the text |
| GoStrings.TrimSuffixAppended | main.go:97 | `strings.TrimSuffix` removes a suffix that was just appended |
| GoStrings.TrimSuffix | main.go:97 | the result is the text or the text minus the suffix, and it is the text minus the suffix exactly when the text ends in the suffix |
| GoStrings.Itoa | main.go:110 | `strconv.Itoa` yields non-empty decimal digits whose value is the number, without a leading zero; zero is the single digit `0` |
| GoStrings.AtoiItoa | main.go:66-70 | `strconv.Atoi` reads back what `Itoa` writes, with an optional `+`, and negated after `-` |
| GoStrings.Atoi | main.go:66-70 | a successful parse had an optional sign followed by at least one digit and nothing else, and its value is the value of the digits, negated after `-` |
| GoStrings.AtoiAccepts | main.go:66-70 | every optional sign followed by at least one digit parses, leading zeros allowed, to the signed value of the digits, exactly when that value fits in 64 bits |
| GoStrings.Wrap64 | main.go:71 | 64-bit wrap-around is the identity in range and differs from the exact value by a multiple of 2^64 |
| Batch.Args | main.go:91-96 | `vals` holds six arguments per user; user i's fields, in header column order, occupy positions 6i..6i+5 |
| Batch.Template | main.go:92-97 | before renumbering, the statement is the fixed INSERT header followed by one `(?,?,?,?,?,?)` per user, joined by commas, with no trailing comma |
| Batch.BuildInsert | main.go:91-98 | the prepared statement keeps no `?` marker and comes with six arguments per user |
| Batch.TrimmedRows | main.go:93-97 | after any text not ending in a comma, appending `row,` n times and trimming the last comma gives the n rows joined by commas |
| Batch.ParametersMatchArgs | main.go:91-98 | the prepared statement names exactly the parameters $1..$6k in order, and there are exactly 6k arguments, so $j binds argument j-1; no `?` is left |
| Batch.TemplateIsPlain | main.go:92-97 | the statement before renumbering has no `$` and no digit, and 6k `?` markers for k users |
| Batch.RowsArePlain | main.go:94 | k comma-joined row templates have no `$` or digit and exactly 6k markers |
| Batch.RowsAfterPlain | main.go:92-94 | rows appended to a text with no `$`, digit or marker keep it free of `$` and digits and add six markers per row |
| Batch.HeaderIsPlain | main.go:92 | the INSERT header has no `$`, no digit and no marker |
| Batch.StatementText | main.go:92-98 | for k users the prepared text is the INSERT header followed by k rows joined by commas, row i (from 0) being `($6i+1,$6i+2,...,$6i+6)` |
| Batch.OneUser | main.go:91-98 | a one-user page is prepared as the header followed by `($1,$2,$3,$4,$5,$6)`, bound to that user's six fields in column order |
| Batch.TemplateRendered | main.go:92-98 | the loop's output, trimmed and renumbered from 1, is the header followed by the rendered rows |
| Batch.RowsRendered | main.go:93-94 | renumbering k row templates from 1 renders each row with the next six tokens |
| Batch.JoinedRenumbered | main.go:93-94 | renumbering comma-joined copies of a row holding w markers renders the copies one by one, each starting w tokens after the previous one |
| Batch.JoinedOccurrences | main.go:93-94 | k comma-joined copies of a row hold k times its markers |
| Batch.RowScan | main.go:94 | renumbering one `(?,?,?,?,?,?)` from k gives the row with tokens k to k+5, in order |
| Batch.FirstRow | main.go:110 | the first row rendered with `"$"+strconv.Itoa(m)` tokens reads `($1,$2,$3,$4,$5,$6)` |
| Batch.EmptyPage | main.go:92-98 | a page with no users gives the bare header (`... VALUES`) and no argument |
| Pagination.NextLink | main.go:50-63 | there is a next cursor exactly when some `<...>` without a line break inside occurs; it is the text of the leftmost such match, shortest for its start, and contains no `>` or line break |
| Pagination.MatchFrom | main.go:50 | the match found is a `<` ... `>` span; no span starts further left, and none from the same start ends earlier |
| Pagination.CloseFrom | main.go:50 | the lazy `.*?>` ends at the first `>`, unless a line break comes first |
| Pagination.NextLinkIsFirstBracketed | main.go:50-59 | on a header without line breaks, the regular expression agrees with reading from the first `<` to the first `>` after it, including both ways of finding nothing |
| Pagination.LinkFromSpan | main.go:58-59 | a span from the first `<` to the first `>` after it is the extracted cursor |
| Pagination.NextLinkExample | main.go:58-59 | for `<p2>, <p1>` the cursor is `p2`: the first link listed is taken |
| Pagination.RequestURL | main.go:55-61 | a non-empty cursor is requested as it is; the empty cursor requests the fixed first page |
| RateLimit.Decide | main.go:66-71 | an unparsable remaining count fails; more than one request left proceeds; otherwise an unparsable reset fails; otherwise the pause plus the clock equals the reset instant plus one second, modulo 2^64 |
| RateLimit.ResumesAfterReset | main.go:71 | without overflow, the crawl resumes exactly one second after the reset instant |
| RateLimit.SleepsIffResetAhead | main.go:71-73 | the crawler blocks exactly when the reset instant is not yet past; a past instant gives a non-positive pause, which `time.Sleep` ignores |
| RateLimit.SleepNanos | main.go:73 | `time.Duration(s) * time.Second` is s·10^9 nanoseconds whenever that fits in 64 bits |
| RateLimit.ResetIgnoredWhileQuotaLeft | main.go:66-68 | with more than one request left, the reset header is not read: any value, even a malformed one, and any clock reading proceed |
| RateLimit.PauseShrinksWithTime | main.go:71 | a later clock reading never gives a longer pause |
| RateLimit.LastRequestExample | main.go:66-71 | one request left with the reset ten seconds ahead gives an eleven-second pause |
| RateLimit.QuotaLeftExample | main.go:66-68 | fifty requests left proceeds, whatever the reset header holds |
| RateLimit.MissingRemainingFails | main.go:66-67 | an absent remaining header (the empty string) ends the crawl |
| Crawl.Step | main.go:55-102 | failures come in source order (request, `Link` header, remaining, reset, body); a completed iteration fetched the cursor's URL, extracted the next cursor, applied the rate-limit decision and built the batch statement from the decoded users |
| Crawl.NextCursorIgnoresCursor | main.go:55-65 | the next cursor, the rate-limit decision and the stored statement depend on the response only, not on which URL was requested |
| Crawl.Run | main.go:54-103 | each input completes at most one iteration, and the run ends before its inputs run out exactly when it records a stop |
| Crawl.RunChains | main.go:54-103 | every completed iteration of a run is what one iteration makes of its input and the previous page's cursor, and a run that stopped did so because the following iteration failed |
| Crawl.RunFollowsLinks | main.go:54-65 | the first page fetched is the starting cursor's URL, and each later page is the URL of the cursor the page before it extracted |
| Crawl.RunStoresEachPage | main.go:88-102 | each completed iteration built the INSERT statement for exactly the users its response decoded to |
| Crawl.LastPageNotStored | main.go:58-63 | a response without a next link ends the crawl before its users are stored; no page is completed from it or from later inputs |
| Crawl.EmptyLinkRestarts | main.go:55-63 | the header `<>` yields the empty cursor, so the next request goes back to the first page |
| Crawl.RunPrefix | main.go:54-103 | more inputs only extend a run; a run that already stopped is unchanged by later inputs |

## Left out

- HTTP: the client, its five-second timeout (main.go:47-49) and the echo handler and server (main.go:29-44, main.go:115-126) are not modelled. A request's outcome is an input, `Crawl.Fetch`. A missing header is the empty string.
- Database: `sql.Open`, `Ping`, `Prepare` and `Exec` (main.go:36-40, main.go:99-102, main.go:119-123) are not modelled. Each page's statement and arguments are the model's output. A database error, which ends the crawl in the source, has no counterpart.
- JSON decoding (main.go:77-90) is an input: a reply carries `Some(users)`, or `None` for an unreadable or malformed body.
- The clock (`time.Now`, main.go:71) is a parameter. `time.Sleep` and the two log lines (main.go:72-74) are left out. The first log line calls the pause `ms`, but it is in seconds.
- The goroutine (main.go:42), `defer` (main.go:76) and panics are left out. Every `checkErr` panic, and the panic from indexing a missing regular-expression match, becomes a `StopReason` value that ends the run.
- The unbounded loop (main.go:54) is modelled over a finite sequence of inputs. It is never observed to end on success.
- Go's regular-expression engine is not modelled as a whole. Only the one pattern `<.*?>` is, with leftmost-first, lazy matching and `.` excluding line breaks.
- Strings are character sequences. Go indexes strings by byte; the crawler builds and searches ASCII text, where the two coincide.
- Placeholders.ReplaceSQLRenumbers: proved for one-character markers that are neither `$` nor a digit. This covers the `?` the crawler uses. `ReplaceSQL` is defined for any pattern, including the empty one, but its renumbering meaning is not proved for multi-character patterns.
- Pagination.NextLink: the source takes the first bracketed URL in the header, whatever its `rel=` value. The model does the same and does not look for `rel="next"`.
- RateLimit.Decide: the reset header is parsed only when at most one request remains, as in the source. A malformed reset header is therefore harmless while quota is left.
- RateLimit.Decide: the pause is not clamped. A reset instant already past gives zero or fewer seconds, and `time.Sleep` returns at once for those.
- RateLimit.SleepNanos: the nanosecond product wraps like Go's. Properties about blocking are stated only for pauses whose nanosecond count fits 64 bits, about 292 years.
- Crawl.Step: with an empty cursor the source checks the request error before reading the header (main.go:57). With a cursor it reads the header first (main.go:62-64), and a failed request then panics on the missing response. Both orders end the crawl, so both are `RequestFailed`.
- Batch.EmptyPage, Crawl.Step: a response whose body decodes to no user yields the bare text `INSERT INTO users(...) VALUES` (main.go:92, main.go:97-98). PostgreSQL rejects that text at `db.Prepare` (main.go:99-100), so the source ends the crawl there. The model completes the iteration with that statement and the run goes on, because the database is not modelled.
- Crawl.LastPageNotStored: a final page without any `<...>` in its `Link` header is never stored, because the crawl fails before reaching its body.
