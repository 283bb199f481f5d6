/** The proxy source resolver (`fetch_proxies`): the ProxyScrape API answer is
    parsed into `http://ip:port` endpoints; when that fails for any reason the
    free-proxy-list.net table is scraped instead, one endpoint per row.
    The HTTP session (with its retry policy) and the HTML parser are not
    modelled: their answers are the inputs. */
module ProxySource {
  import opened PyText

  datatype Option<T> = None | Some(value: T)

  /** Why fetching the proxy list failed. */
  datatype FetchError =
    | ConnectionFailed        // the GET raised (network error, retries exhausted)
    | HttpError(status: int)  // `raise_for_status()` on a 4xx or 5xx answer
    | EmptyProxyList          // the API answered with no non-blank line
    | TableNotFound           // no proxy table on the page, or a table without `tbody`
    | ColumnMissing           // a row with fewer than seven cells: `cols[6]` raises

  datatype Result<T> = Ok(value: T) | Err(error: FetchError)

  /** The answer to one GET once the session's retries are over: a status and
      a body, or no answer at all. */
  datatype Reply<B> = Answered(status: int, body: B) | NoAnswer

  /** The text of each `<td>` cell of one `<tr>`. */
  type Row = seq<string>

  /** The proxy table of the fallback page, as the HTML parser finds it. */
  datatype Table = Table(tbody: Option<seq<Row>>)

  /** Statuses for which `raise_for_status()` raises. */
  predicate IsHttpError(status: int) {
    400 <= status < 600
  }

  // ---------------------------------------------------------------------------
  // Primary path: the API body

  /** `[line.strip() for line in lines if line.strip()]` */
  function NonBlankLines(lines: seq<string>): seq<string> {
    if lines == [] then []
    else
      var h := Strip(lines[0]);
      (if h == [] then [] else [h]) + NonBlankLines(lines[1..])
  }

  /** The comprehension yields at most one entry per line. */
  lemma {:induction false} NonBlankLinesLength(lines: seq<string>)
    ensures |NonBlankLines(lines)| <= |lines|
  {
    if lines != [] {
      NonBlankLinesLength(lines[1..]);
    }
  }

  /** Every entry of the comprehension is non-empty, with non-space ends. */
  lemma NonBlankLinesTrimmed(lines: seq<string>)
    ensures forall i :: 0 <= i < |NonBlankLines(lines)| ==>
              var h := NonBlankLines(lines)[i]; h != [] && !IsSpace(h[0]) && !IsSpace(h[|h| - 1])
  {
    var r := NonBlankLines(lines);
    forall i | 0 <= i < |r| ensures r[i] != [] && !IsSpace(r[i][0]) && !IsSpace(r[i][|r[i]| - 1]) {
      var j := NonBlankLineSource(lines, i);
    }
  }

  /** Stripping adds no line boundary: entries of lines without one have none. */
  lemma {:induction false} NonBlankLinesNoBreak(lines: seq<string>)
    ensures (forall i :: 0 <= i < |lines| ==> NoLineBreak(lines[i])) ==>
              forall i :: 0 <= i < |NonBlankLines(lines)| ==> NoLineBreak(NonBlankLines(lines)[i])
  {
    if lines != [] {
      var h := Strip(lines[0]);
      var rest := NonBlankLines(lines[1..]);
      NonBlankLinesNoBreak(lines[1..]);
      StripNoLineBreak(lines[0]);
      if h == [] {
        assert NonBlankLines(lines) == rest;
      } else {
        assert NonBlankLines(lines) == [h] + rest;
      }
    }
  }

  /** Lines 58-61 of `fetch_proxies`: the stripped non-blank lines of the body,
      each prefixed with `http://`; a body without any is an error. */
  function ParseApiBody(text: string): (r: Result<seq<string>>)
    ensures r.Err? ==> r.error == EmptyProxyList
    ensures r.Ok? ==> r.value != []
  {
    var hosts := NonBlankLines(SplitLines(text));
    if hosts == [] then Err(EmptyProxyList)
    else Ok(seq(|hosts|, i requires 0 <= i < |hosts| => "http://" + hosts[i]))
  }

  /** The primary path up to its `except`: no answer, an HTTP error status or
      an empty list all make it fail (and so trigger the fallback). */
  function ApiAttempt(api: Reply<string>): (r: Result<seq<string>>)
    ensures r.Ok? ==> api.Answered? && !IsHttpError(api.status) && r == ParseApiBody(api.body)
    ensures api.Answered? && !IsHttpError(api.status) ==> r == ParseApiBody(api.body)
    ensures api.NoAnswer? ==> r == Err(ConnectionFailed)
    ensures api.Answered? && IsHttpError(api.status) ==> r == Err(HttpError(api.status))
  {
    match api
    case NoAnswer => Err(ConnectionFailed)
    case Answered(status, text) =>
      if IsHttpError(status) then Err(HttpError(status)) else ParseApiBody(text)
  }

  lemma {:induction false} NonBlankLinesEmpty(lines: seq<string>)
    ensures NonBlankLines(lines) == [] <==> AllBlank(lines)
  {
    if lines != [] {
      NonBlankLinesEmpty(lines[1..]);
      AllBlankCons(lines[0], lines[1..]);
      assert [lines[0]] + lines[1..] == lines;
    }
  }

  /** Filtering the lines keeps their order: it distributes over concatenation. */
  lemma {:induction false} NonBlankLinesAppend(a: seq<string>, b: seq<string>)
    ensures NonBlankLines(a + b) == NonBlankLines(a) + NonBlankLines(b)
  {
    if a != [] {
      var h := Strip(a[0]);
      var head := if h == [] then [] else [h];
      assert (a + b)[0] == a[0];
      assert (a + b)[1..] == a[1..] + b;
      assert NonBlankLines(a + b) == head + NonBlankLines(a[1..] + b);
      assert NonBlankLines(a) == head + NonBlankLines(a[1..]);
      NonBlankLinesAppend(a[1..], b);
    } else {
      assert a + b == b;
    }
  }

  /** The API answer is rejected (and the fallback used) exactly when the body
      holds nothing but whitespace; it is never taken as an empty list. */
  lemma ApiBodyRejectedIffBlank(text: string)
    ensures ParseApiBody(text).Err? <==> AllSpace(text)
  {
    SplitLinesAllBlank(text);
    NonBlankLinesEmpty(SplitLines(text));
  }

  /** Number of lines that are not all whitespace. */
  function NonBlankCount(lines: seq<string>): nat {
    if lines == [] then 0 else (if AllSpace(lines[0]) then 0 else 1) + NonBlankCount(lines[1..])
  }

  /** The comprehension keeps exactly one entry per non-blank line. */
  lemma {:induction false} NonBlankLinesCount(lines: seq<string>)
    ensures |NonBlankLines(lines)| == NonBlankCount(lines)
  {
    if lines != [] {
      NonBlankLinesCount(lines[1..]);
    }
  }

  /** The line that entry `i` of the comprehension comes from. */
  lemma {:induction false} NonBlankLineSource(lines: seq<string>, i: nat) returns (j: nat)
    requires i < |NonBlankLines(lines)|
    ensures j < |lines| && !AllSpace(lines[j]) && NonBlankLines(lines)[i] == Strip(lines[j])
  {
    assert lines != [];
    var h := Strip(lines[0]);
    var rest := NonBlankLines(lines[1..]);
    var tail := lines[1..];
    if h == [] {
      assert NonBlankLines(lines) == rest;
      var j' := NonBlankLineSource(tail, i);
      assert tail[j'] == lines[j' + 1];
      j := j' + 1;
    } else if i == 0 {
      assert NonBlankLines(lines)[0] == h;
      j := 0;
    } else {
      assert NonBlankLines(lines) == [h] + rest;
      assert NonBlankLines(lines)[i] == rest[i - 1];
      var j' := NonBlankLineSource(tail, i - 1);
      assert tail[j'] == lines[j' + 1];
      j := j' + 1;
    }
  }

  /** Every entry of the comprehension is the strip of a non-blank line. */
  lemma {:induction false} NonBlankLinesFromLines(lines: seq<string>)
    ensures forall i :: 0 <= i < |NonBlankLines(lines)| ==>
              exists j :: 0 <= j < |lines| && !AllSpace(lines[j]) && NonBlankLines(lines)[i] == Strip(lines[j])
  {
    var r := NonBlankLines(lines);
    forall i | 0 <= i < |r|
      ensures exists j :: 0 <= j < |lines| && !AllSpace(lines[j]) && r[i] == Strip(lines[j])
    {
      var j := NonBlankLineSource(lines, i);
    }
  }

  /** The API path yields exactly one endpoint per non-blank line of the body,
      each `http://` followed by the strip of such a line. */
  lemma ApiEndpointsPerLine(text: string)
    requires ParseApiBody(text).Ok?
    ensures |ParseApiBody(text).value| == NonBlankCount(SplitLines(text))
    ensures forall i :: 0 <= i < |ParseApiBody(text).value| ==>
              exists j :: 0 <= j < |SplitLines(text)| && !AllSpace(SplitLines(text)[j]) &&
                ParseApiBody(text).value[i] == "http://" + Strip(SplitLines(text)[j])
  {
    var lines := SplitLines(text);
    var hosts := NonBlankLines(lines);
    var eps := ParseApiBody(text).value;
    NonBlankLinesCount(lines);
    NonBlankLinesFromLines(lines);
    forall i | 0 <= i < |eps|
      ensures exists j :: 0 <= j < |lines| && !AllSpace(lines[j]) && eps[i] == "http://" + Strip(lines[j])
    {
      var j :| 0 <= j < |lines| && !AllSpace(lines[j]) && hosts[i] == Strip(lines[j]);
      assert eps[i] == "http://" + Strip(lines[j]);
    }
  }

  /** Every endpoint of the API path is `http://` followed by a stripped,
      non-empty line of the body. */
  lemma ApiEndpointsWellFormed(text: string)
    requires ParseApiBody(text).Ok?
    ensures forall i :: 0 <= i < |ParseApiBody(text).value| ==>
              var ep := ParseApiBody(text).value[i];
              |ep| > 7 && ep[..7] == "http://" && IsTrimmedLine(ep[7..]) && NoLineBreak(ep)
  {
    var hosts := NonBlankLines(SplitLines(text));
    var eps := ParseApiBody(text).value;
    NonBlankLinesTrimmed(SplitLines(text));
    NonBlankLinesNoBreak(SplitLines(text));
    forall i | 0 <= i < |eps|
      ensures |eps[i]| > 7 && eps[i][..7] == "http://" && IsTrimmedLine(eps[i][7..]) && NoLineBreak(eps[i])
    {
      assert eps[i] == "http://" + hosts[i];
      HttpEndpointShape(hosts[i]);
    }
  }

  lemma HttpEndpointShape(h: string)
    requires IsTrimmedLine(h)
    ensures var ep := "http://" + h;
      |ep| > 7 && ep[..7] == "http://" && IsTrimmedLine(ep[7..]) && NoLineBreak(ep)
  {
    var ep := "http://" + h;
    assert ep[7..] == h;
    assert NoLineBreak("http://");
    NoLineBreakConcat("http://", h);
  }

  lemma {:induction false} NonBlankLinesOfTrimmed(hosts: seq<string>)
    requires forall i :: 0 <= i < |hosts| ==> IsTrimmedLine(hosts[i])
    ensures NonBlankLines(hosts) == hosts
  {
    if hosts != [] {
      var h := hosts[0];
      assert LeadingSpace(h) == 0;
      assert StripLeft(h) == h;
      assert StripRight(h) == h;
      NonBlankLinesOfTrimmed(hosts[1..]);
    }
  }

  /** A body written as one `ip:port` per line parses back to exactly those
      entries, in order, each prefixed with `http://`. */
  lemma ApiBodyRoundTrip(hosts: seq<string>)
    requires hosts != []
    requires forall i :: 0 <= i < |hosts| ==> IsTrimmedLine(hosts[i])
    ensures ParseApiBody(JoinLines(hosts)) == Ok(seq(|hosts|, i requires 0 <= i < |hosts| => "http://" + hosts[i]))
  {
    SplitJoinLines(hosts);
    NonBlankLinesOfTrimmed(hosts);
  }

  /** Parsing is a normal form: rewriting the body as its stripped non-blank
      lines, one per line, gives the same endpoints. */
  lemma ApiBodyNormalForm(text: string)
    ensures ParseApiBody(JoinLines(NonBlankLines(SplitLines(text)))) == ParseApiBody(text)
  {
    var hosts := NonBlankLines(SplitLines(text));
    if hosts != [] {
      NonBlankLinesTrimmed(SplitLines(text));
      NonBlankLinesNoBreak(SplitLines(text));
      ApiBodyRoundTrip(hosts);
    } else {
      assert JoinLines(hosts) == [];
    }
  }

  // ---------------------------------------------------------------------------
  // Fallback path: the scraped table

  /** `"https" if flag.lower() == "yes" else "http"` */
  function Scheme(flag: string): string {
    if Lower(flag) == "yes" then "https" else "http"
  }

  /** The scheme is `https` exactly when the flag is "yes" in any letter case. */
  lemma SchemeIsHttpsIffYes(flag: string)
    ensures Scheme(flag) == "https" <==>
              |flag| == 3 && (flag[0] == 'y' || flag[0] == 'Y') &&
              (flag[1] == 'e' || flag[1] == 'E') && (flag[2] == 's' || flag[2] == 'S')
    ensures Scheme(flag) != "https" ==> Scheme(flag) == "http"
  {
  }

  /** `f"{scheme}://{ip}:{port}"` for one row: cells 0, 1 and 6. */
  function RowEndpoint(row: Row): string
    requires |row| >= 7
  {
    Scheme(row[6]) + "://" + row[0] + ":" + row[1]
  }

  predicate RowsComplete(rows: seq<Row>) {
    forall i :: 0 <= i < |rows| ==> |rows[i]| >= 7
  }

  /** What the row loop of `fetch_proxies` builds: one endpoint per row, in
      row order, unless some row is too short to hold cell 6. */
  function RowEndpoints(rows: seq<Row>): (r: Result<seq<string>>)
    ensures r.Ok? <==> RowsComplete(rows)
    ensures r.Err? ==> r.error == ColumnMissing
    ensures r.Ok? ==> (|r.value| == |rows| &&
              forall i :: 0 <= i < |rows| ==> r.value[i] == RowEndpoint(rows[i]))
  {
    if rows == [] then Ok([])
    else
      var init, last := rows[..|rows| - 1], rows[|rows| - 1];
      assert rows == init + [last];
      match RowEndpoints(init)
      case Err(e) => Err(e)
      case Ok(eps) =>
        if |last| < 7 then Err(ColumnMissing)
        else
          var ep := RowEndpoint(last);
          assert forall i :: 0 <= i < |init| ==> (eps + [ep])[i] == eps[i];
          Ok(eps + [ep])
  }

  /** The fallback path as a whole (lines 68-81): its errors are not caught. */
  function FallbackResult(page: Reply<Option<Table>>): Result<seq<string>> {
    match page
    case NoAnswer => Err(ConnectionFailed)
    case Answered(status, table) =>
      if IsHttpError(status) then Err(HttpError(status))
      else if table.None? || table.value.tbody.None? then Err(TableNotFound)
      else RowEndpoints(table.value.tbody.value)
  }

  /** The fallback scrape, building the list row by row as the source does. */
  method ScrapeFallback(page: Reply<Option<Table>>) returns (r: Result<seq<string>>)
    ensures r == FallbackResult(page)
  {
    if page.NoAnswer? {
      return Err(ConnectionFailed);
    }
    if IsHttpError(page.status) {
      return Err(HttpError(page.status));
    }
    var table := page.body;
    if table.None? || table.value.tbody.None? {
      return Err(TableNotFound);
    }
    var rows := table.value.tbody.value;
    var proxies: seq<string> := [];
    var i := 0;
    while i < |rows|
      invariant 0 <= i <= |rows|
      invariant RowEndpoints(rows[..i]) == Ok(proxies)
    {
      var cols := rows[i];
      if |cols| < 7 {
        assert rows[..i + 1][..i] == rows[..i];
        return Err(ColumnMissing);
      }
      var scheme := if Lower(cols[6]) == "yes" then "https" else "http";
      proxies := proxies + [scheme + "://" + cols[0] + ":" + cols[1]];
      assert rows[..i + 1][..i] == rows[..i];
      i := i + 1;
    }
    assert rows[..i] == rows;
    return Ok(proxies);
  }

  /** Cells 0 and 1 (address and port) of every fallback row hold no line
      boundary. The source does not strip or check these cells. */
  predicate AddressCellsSingleLine(page: Reply<Option<Table>>) {
    page.Answered? && page.body.Some? && page.body.value.tbody.Some? ==>
      var rows := page.body.value.tbody.value;
      forall i :: 0 <= i < |rows| && |rows[i]| >= 2 ==> NoLineBreak(rows[i][0]) && NoLineBreak(rows[i][1])
  }

  lemma RowEndpointSingleLine(row: Row)
    requires |row| >= 7 && NoLineBreak(row[0]) && NoLineBreak(row[1])
    ensures NoLineBreak(RowEndpoint(row))
  {
    SchemeIsHttpsIffYes(row[6]);
    var scheme := Scheme(row[6]);
    assert NoLineBreak(scheme + "://");
    NoLineBreakConcat(scheme + "://", row[0]);
    NoLineBreakConcat(scheme + "://" + row[0], ":");
    NoLineBreakConcat(scheme + "://" + row[0] + ":", row[1]);
  }

  /** When the address and port cells are single-line, so is every endpoint
      the fallback builds. */
  lemma FallbackEndpointsSingleLine(page: Reply<Option<Table>>)
    requires FallbackResult(page).Ok? && AddressCellsSingleLine(page)
    ensures forall i :: 0 <= i < |FallbackResult(page).value| ==> NoLineBreak(FallbackResult(page).value[i])
  {
    var rows := page.body.value.tbody.value;
    forall i | 0 <= i < |rows|
      ensures NoLineBreak(FallbackResult(page).value[i])
    {
      RowEndpointSingleLine(rows[i]);
    }
  }

  /** One row whose HTTPS flag is "yes". */
  lemma FallbackRowExample()
    ensures RowEndpoints([["9.9.9.9", "80", "", "", "", "", "yes"]]) == Ok(["https://9.9.9.9:80"])
  {
    var row := ["9.9.9.9", "80", "", "", "", "", "yes"];
    SchemeIsHttpsIffYes(row[6]);
    assert RowEndpoint(row) == "https://9.9.9.9:80";
    var rows: seq<Row> := [row];
    assert rows[..0] == [];
    assert RowEndpoints(rows[..0]) == Ok([]);
    assert RowEndpoints(rows) == Ok([] + [RowEndpoint(row)]);
    assert [] + [RowEndpoint(row)] == ["https://9.9.9.9:80"];
  }

  // ---------------------------------------------------------------------------
  // Both paths

  /** `fetch_proxies()`: the API list when that attempt succeeds, otherwise
      whatever the fallback gives, error included. */
  function FetchResult(api: Reply<string>, page: Reply<Option<Table>>): Result<seq<string>> {
    if ApiAttempt(api).Ok? then ApiAttempt(api) else FallbackResult(page)
  }

  method FetchProxies(api: Reply<string>, page: Reply<Option<Table>>) returns (r: Result<seq<string>>)
    ensures r == FetchResult(api, page)
  {
    var primary := ApiAttempt(api);
    if primary.Ok? {
      return primary;
    }
    r := ScrapeFallback(page);
  }

  /** Fetching fails only when both paths fail, and then with the fallback's
      error; the API path is used whenever it gives a non-empty list. */
  lemma FetchFailsOnlyIfBothFail(api: Reply<string>, page: Reply<Option<Table>>)
    ensures FetchResult(api, page).Err? <==> ApiAttempt(api).Err? && FallbackResult(page).Err?
    ensures FetchResult(api, page).Err? ==> FetchResult(api, page) == FallbackResult(page)
    ensures api.Answered? && !IsHttpError(api.status) && !AllSpace(api.body) ==>
              FetchResult(api, page) == ParseApiBody(api.body) && FetchResult(api, page).value != []
  {
    if api.Answered? {
      ApiBodyRejectedIffBlank(api.body);
    }
  }
}
