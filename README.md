# ProxyNova proxy tester — a Dafny model of its logic

ProxyNova is a one-shot batch script (`main.py`). It fetches a list of HTTP
proxy endpoints, tests each one by sending a GET through it, and writes the
working ones to `proxies.txt`, one per line. Most of the script is I/O. This
project models the sequential logic between the I/O calls and proves what it
guarantees:

- **Proxy source** (`fetch_proxies`, module `ProxySource`). The ProxyScrape
  API body is split with Python's `splitlines()`, every line is `strip()`ped,
  blank lines are dropped, and each remaining line becomes `http://<line>`.
  A body with no non-blank line is an error. Any failure of this path
  (no answer, a 4xx/5xx status, an empty list) falls back to the
  free-proxy-list.net table: each row becomes `scheme://ip:port`, where the
  scheme is `https` exactly when cell 6, lower-cased, is `yes`. Errors of
  the fallback (no answer, 4xx/5xx, no table or no `tbody`, a row with fewer
  than seven cells) are not caught and end the run.
- **Proxy checker** (`test_proxy`, `check`, module `ProxyCheck`). The outcome
  of the GET is either a status code or an exception; the verdict is true
  exactly for status 200, and every exception becomes false.
- **Test driver and writer** (`main`, module `TestDriver`). The pool's
  completions arrive in any order. The coordinator counts every completion,
  counts and collects the successful ones in arrival order, then writes
  `p + "\n"` for each collected proxy and reports `len(working)/total`.
- Module `PyText` states the Python string operations the script relies on:
  `str.isspace`, `str.splitlines` (every Python line boundary, `\r\n` as one),
  `str.strip`, `str.lower`, and the text the writer loop produces.

The network answers, the parsed HTML table, the per-proxy outcomes and the
order in which the pool delivers completions are inputs of the model. The
pool is described by `TestDriver.PoolDelivers`: the completion stream holds
each fetched proxy's `check` result exactly once, in any order.

Three behaviours of the code are worth knowing. The fallback path accepts a
table whose `tbody` holds no row and returns an empty list; only the API path
treats an empty list as a failure. A fallback row with fewer than seven
cells raises an `IndexError` that ends the whole fetch, even when other rows
are complete; the model returns `ColumnMissing` for it. And the fallback
copies the address and port cells verbatim, without stripping them: a cell
holding a newline puts an extra line into `proxies.txt`, so the file can then
have more lines than the `len(working)` the summary prints
(`TestDriver.FallbackNewlineAddsLine`). The line count matches the summary
for API-fetched proxies, and for fallback proxies whose address and port
cells are single-line (`TestDriver.Run`).

## Model

| member | source | states |
|---|---|---|
| `PyText.SplitLines` | main.py:58 | `splitlines()` never yields a line containing a line boundary |
| `PyText.SplitLinesKeepsText` | main.py:58 | gluing the lines of `splitlines()` back together gives the text with only its boundary characters removed, nothing lost or reordered (for `\r\n` separators and an unterminated last line too) |
| `PyText.Strip` | main.py:58 | `strip()` yields the slice of the line left after cutting whitespace at both ends; it is empty iff the line is all whitespace, otherwise it starts and ends with a non-space |
| `PyText.StripLeft` | main.py:58 | the left-stripped text is the suffix of the input left after cutting only whitespace, and it does not start with whitespace |
| `PyText.StripRight` | main.py:58 | the right-stripped text is a prefix of the input, only whitespace was cut, and it does not end with whitespace |
| `PyText.StripNoLineBreak` | main.py:58 | `strip()` never introduces a line boundary into a line that has none |
| `PyText.Lower` | main.py:78 | `lower()` keeps the length and lower-cases character by character |
| `PyText.SplitLinesAllBlank` | main.py:58-60 | a body is all whitespace iff every line `splitlines()` gives is blank |
| `PyText.JoinLinesNewlines` | main.py:127-131 | when no item contains a newline, the written text has exactly one newline per item, so the file has as many lines as the reported working count |
| `PyText.SplitJoinLines` | main.py:127-129 | reading the written text back with `splitlines()` gives exactly the written items, in order, when no item contains a line boundary |
| `ProxySource.NonBlankLinesLength` | main.py:58 | the comprehension yields at most one entry per line |
| `ProxySource.NonBlankLinesTrimmed` | main.py:58 | every entry of the comprehension is non-empty and neither starts nor ends with whitespace |
| `ProxySource.NonBlankLinesNoBreak` | main.py:58 | entries of the comprehension hold no line boundary when the lines have none |
| `ProxySource.NonBlankLinesEmpty` | main.py:58-59 | the comprehension is empty iff every line is blank |
| `ProxySource.NonBlankLinesAppend` | main.py:58 | the comprehension keeps line order: it distributes over concatenation |
| `ProxySource.NonBlankLinesCount` | main.py:58 | the comprehension has exactly one entry per line that is not all whitespace |
| `ProxySource.NonBlankLinesFromLines` | main.py:58 | every entry of the comprehension is the strip of a non-blank line of its input |
| `ProxySource.ParseApiBody` | main.py:58-61 | the API path never returns an empty list; its only error is the empty-list error |
| `ProxySource.ApiBodyRejectedIffBlank` | main.py:59-60 | the API body is rejected iff it holds nothing but whitespace |
| `ProxySource.ApiEndpointsWellFormed` | main.py:58-61 | every API endpoint is `http://` followed by a stripped, non-empty line, and holds no line boundary |
| `ProxySource.ApiEndpointsPerLine` | main.py:58-61 | the API path yields exactly one endpoint per non-blank line of the body, each `http://` followed by the strip of such a line |
| `ProxySource.ApiBodyRoundTrip` | main.py:58-61 | a body of one `ip:port` per line parses to exactly those entries, in order, each prefixed with `http://` |
| `ProxySource.ApiBodyNormalForm` | main.py:58-61 | rewriting a body as its stripped non-blank lines does not change the parsed endpoints |
| `ProxySource.ApiAttempt` | main.py:55-61 | the API path succeeds only on an answered, non-4xx/5xx request whose body parses; no answer and error statuses give the matching error |
| `ProxySource.SchemeIsHttpsIffYes` | main.py:78-79 | the scheme is `https` iff the flag is `yes` in any letter case, and `http` otherwise |
| `ProxySource.RowEndpoints` | main.py:75-80 | the row loop succeeds iff every row has at least seven cells; then it yields one `scheme://ip:port` per row, in row order; otherwise the error is `ColumnMissing` |
| `ProxySource.ScrapeFallback` | main.py:66-81 | the fallback method returns what the fallback specification gives: no answer, 4xx/5xx and missing table or `tbody` errors, else the row loop's result |
| `ProxySource.FallbackRowExample` | main.py:76-80 | a row `9.9.9.9`, `80`, flag `yes` gives `https://9.9.9.9:80` |
| `ProxySource.RowEndpointSingleLine` | main.py:78-80 | a row whose address and port cells hold no line boundary gives an endpoint without one |
| `ProxySource.FallbackEndpointsSingleLine` | main.py:75-81 | when every row's address and port cells are single-line, every fallback endpoint is single-line |
| `ProxySource.FetchProxies` | main.py:33-81 | fetching takes the API list when that path succeeds and the fallback's result otherwise |
| `ProxySource.FetchFailsOnlyIfBothFail` | main.py:55-81 | fetching fails iff both paths fail, with the fallback's error; a non-blank, non-error API answer is always used and is non-empty |
| `ProxyCheck.TestProxy` | main.py:83-88 | the verdict is true iff the outcome is status exactly 200; any exception gives false |
| `ProxyCheck.Check` | main.py:90-91 | the completion carries the proxy tested and its verdict |
| `TestDriver.SuccessesCount` | main.py:113-117 | each proxy is collected exactly as often as it completed successfully |
| `TestDriver.SuccessesUpToOrder` | main.py:112-117 | the completion order changes only the order of the working list, never its contents |
| `TestDriver.SuccessesWithinInput` | main.py:113-117 | the working proxies form a sub-multiset of the fetched proxies |
| `TestDriver.WorkingIff` | main.py:113-117 | a proxy is reported working iff some fetched copy of it got a status 200 answer |
| `TestDriver.Coordinate` | main.py:100-121 | after the loop, working is the successful completions in arrival order, the tested count equals the number of fetched proxies, and the working count equals the length of working and is at most the tested count |
| `TestDriver.WriteResults` | main.py:127-129 | the written text is `p + "\n"` for each working proxy; it has one newline per proxy and splits back into the list when proxies hold no line boundary |
| `TestDriver.FallbackNewlineAddsLine` | main.py:78-80 | a newline in a row's address cell gives that one proxy two or more newlines in the written text |
| `TestDriver.Run` | main.py:93-132 | a run fails iff fetching fails; otherwise it writes the working proxies one per line and reports `len(working)/total` with working at most total; when the proxies came from the API, or from a fallback table whose address and port cells hold no line boundary, the file's lines are exactly the working proxies and its newline count equals the reported working count |

## Left out

- The HTTP session, its `Retry`/`HTTPAdapter` policy, the URLs, headers and timeouts, and the GETs themselves (main.py:38-56, 66-69, 83-85): each request's final answer after retries is an input (`Reply`), and the status check of `raise_for_status()` is modelled as 400 to 599.
- Decoding the response body into `resp.text`: the body is given as a string.
- The HTML parsing by BeautifulSoup (main.py:70-71, 76-77): the page is given as the table it finds (`Option<Table>`), each row as the text of its cells.
- The worker pool, `imap_unordered` and `cpu_count()` (main.py:112-113): parallelism is replaced by an arbitrary completion order, stated by `TestDriver.PoolDelivers`.
- The progress bars, their descriptions, the console title, the banner and every printed message (main.py:12-31, 63, 94-98, 102-124, 131-132): cosmetic console output; the closing summary is modelled as its two counts, not as formatted text.
- Opening and writing `proxies.txt` (main.py:127): only the text written is modelled.
- The elapsed-time print and the exit pause (main.py:134-143).
- PyText.Lower: lower-cases only ASCII letters, not the rest of Unicode; no other character lower-cases to `y`, `e` or `s`, so the `yes` test on the HTTPS flag gives the same answer either way.
