/** The parallel test driver and the result writer of `main`: the pool's
    completions are consumed one at a time, two counters are kept, the
    working proxies are collected in completion order and then written one
    per line. The pool is not modelled: its stream of completions is an
    input, any reordering of one `check` per fetched proxy. */
module TestDriver {
  import opened PyText
  import opened ProxyCheck
  import ProxySource

  /** The `check` results in input order: `outcomes[i]` is how the GET
      through `proxies[i]` ended. */
  function Checks(proxies: seq<string>, outcomes: seq<Outcome>): seq<Completion>
    requires |outcomes| == |proxies|
  {
    seq(|proxies|, i requires 0 <= i < |proxies| => Check(proxies[i], outcomes[i]))
  }

  /** What `imap_unordered` delivers: every proxy's `check` result exactly
      once, in some order. */
  predicate PoolDelivers(proxies: seq<string>, outcomes: seq<Outcome>, completions: seq<Completion>) {
    |outcomes| == |proxies| && multiset(completions) == multiset(Checks(proxies, outcomes))
  }

  /** The proxies of the successful completions, in completion order. */
  function Successes(cs: seq<Completion>): seq<string> {
    if cs == [] then []
    else Successes(cs[..|cs| - 1]) + (if cs[|cs| - 1].ok then [cs[|cs| - 1].proxy] else [])
  }

  /** A proxy is collected as often as it completed successfully. */
  lemma {:induction false} SuccessesCount(cs: seq<Completion>, p: string)
    ensures multiset(Successes(cs))[p] == multiset(cs)[Completion(p, true)]
  {
    if cs != [] {
      var init, last := cs[..|cs| - 1], cs[|cs| - 1];
      assert cs == init + [last];
      SuccessesCount(init, p);
    }
  }

  /** The completion order decides only the order of the working list, never
      what is in it. */
  lemma SuccessesUpToOrder(cs1: seq<Completion>, cs2: seq<Completion>)
    requires multiset(cs1) == multiset(cs2)
    ensures multiset(Successes(cs1)) == multiset(Successes(cs2))
  {
    forall p | true
      ensures multiset(Successes(cs1))[p] == multiset(Successes(cs2))[p]
    {
      SuccessesCount(cs1, p);
      SuccessesCount(cs2, p);
    }
  }

  lemma {:induction false} ChecksCount(proxies: seq<string>, outcomes: seq<Outcome>, p: string)
    requires |outcomes| == |proxies|
    ensures multiset(Checks(proxies, outcomes))[Completion(p, true)] +
            multiset(Checks(proxies, outcomes))[Completion(p, false)] == multiset(proxies)[p]
  {
    if proxies != [] {
      var n := |proxies| - 1;
      ChecksCount(proxies[..n], outcomes[..n], p);
      assert Checks(proxies, outcomes) == Checks(proxies[..n], outcomes[..n]) + [Check(proxies[n], outcomes[n])];
      assert proxies == proxies[..n] + [proxies[n]];
    }
  }

  /** Nothing is added: every proxy reported working was fetched, at most as
      many times as it was fetched. */
  lemma SuccessesWithinInput(proxies: seq<string>, outcomes: seq<Outcome>)
    requires |outcomes| == |proxies|
    ensures multiset(Successes(Checks(proxies, outcomes))) <= multiset(proxies)
  {
    forall p | true
      ensures multiset(Successes(Checks(proxies, outcomes)))[p] <= multiset(proxies)[p]
    {
      SuccessesCount(Checks(proxies, outcomes), p);
      ChecksCount(proxies, outcomes, p);
    }
  }

  /** A proxy is reported working exactly when some fetched copy of it got a
      status 200 answer. */
  lemma WorkingIff(proxies: seq<string>, outcomes: seq<Outcome>, completions: seq<Completion>, p: string)
    requires PoolDelivers(proxies, outcomes, completions)
    ensures p in Successes(completions) <==>
              exists i :: 0 <= i < |proxies| && proxies[i] == p && outcomes[i] == Responded(200)
  {
    var checks := Checks(proxies, outcomes);
    SuccessesCount(completions, p);
    assert p in Successes(completions) <==> Completion(p, true) in checks;
    if Completion(p, true) in checks {
      var i :| 0 <= i < |checks| && checks[i] == Completion(p, true);
      assert proxies[i] == p && outcomes[i] == Responded(200);
    }
    if exists i :: 0 <= i < |proxies| && proxies[i] == p && outcomes[i] == Responded(200) {
      var i :| 0 <= i < |proxies| && proxies[i] == p && outcomes[i] == Responded(200);
      assert checks[i] == Completion(p, true);
    }
  }

  /** The completion loop of `main`: `tested` goes up on every completion,
      `workingCount` and `working` only on a successful one. */
  method Coordinate(proxies: seq<string>, outcomes: seq<Outcome>, completions: seq<Completion>)
    returns (working: seq<string>, tested: nat, workingCount: nat)
    requires PoolDelivers(proxies, outcomes, completions)
    ensures working == Successes(completions)
    ensures tested == |proxies|
    ensures workingCount == |working| <= tested
    ensures multiset(working) == multiset(Successes(Checks(proxies, outcomes)))
    ensures multiset(working) <= multiset(proxies)
  {
    working := [];
    tested, workingCount := 0, 0;
    for i := 0 to |completions|
      invariant tested == i
      invariant working == Successes(completions[..i])
      invariant workingCount == |working| <= tested
    {
      var c := completions[i];
      tested := tested + 1;
      if c.ok {
        working := working + [c.proxy];
        workingCount := workingCount + 1;
      }
      assert completions[..i + 1][..i] == completions[..i];
    }
    assert completions[..|completions|] == completions;
    assert |multiset(completions)| == |multiset(Checks(proxies, outcomes))|;
    SuccessesUpToOrder(completions, Checks(proxies, outcomes));
    SuccessesWithinInput(proxies, outcomes);
  }

  /** The writer: `p + "\n"` for each working proxy, in order. */
  method WriteResults(working: seq<string>) returns (text: string)
    ensures text == JoinLines(working)
    ensures (forall i :: 0 <= i < |working| ==> '\n' !in working[i]) ==> Count('\n', text) == |working|
    ensures (forall i :: 0 <= i < |working| ==> NoLineBreak(working[i])) ==> SplitLines(text) == working
  {
    text := [];
    for i := 0 to |working|
      invariant text == JoinLines(working[..i])
    {
      JoinLinesSnoc(working[..i], working[i]);
      assert working[..i + 1] == working[..i] + [working[i]];
      text := text + working[i] + "\n";
    }
    assert working[..|working|] == working;
    if forall i :: 0 <= i < |working| ==> '\n' !in working[i] {
      JoinLinesNewlines(working);
    }
    if forall i :: 0 <= i < |working| ==> NoLineBreak(working[i]) {
      SplitJoinLines(working);
    }
  }

  /** The fallback copies cell text verbatim: a newline in a row's address
      cell gives the written text a second line for that one proxy, so the
      file then has more lines than the working count reported. */
  lemma FallbackNewlineAddsLine(row: ProxySource.Row)
    requires |row| >= 7 && '\n' in row[0]
    ensures Count('\n', JoinLines([ProxySource.RowEndpoint(row)])) >= 2
  {
    var ep := ProxySource.RowEndpoint(row);
    var prefix := ProxySource.Scheme(row[6]) + "://";
    var suffix := ":" + row[1];
    assert ep == prefix + row[0] + suffix;
    assert JoinLines([ep]) == ep + "\n" + JoinLines([]);
    CountPresent('\n', row[0]);
    CountAppend('\n', prefix, row[0]);
    CountAppend('\n', prefix + row[0], suffix);
    CountAppend('\n', ep, "\n");
    CountAppend('\n', ep + "\n", []);
  }

  /** The closing line: `len(working)` of `total` proxies working. */
  datatype Summary = Summary(working: nat, total: nat)

  /** `main()`: fetch, test every proxy, write the working ones and report.
      A failed fetch ends the run with its error. */
  method Run(api: ProxySource.Reply<string>, page: ProxySource.Reply<ProxySource.Option<ProxySource.Table>>,
             outcomes: seq<Outcome>, completions: seq<Completion>)
    returns (r: ProxySource.Result<(string, Summary)>)
    requires ProxySource.FetchResult(api, page).Ok? ==>
               PoolDelivers(ProxySource.FetchResult(api, page).value, outcomes, completions)
    ensures r.Err? <==> ProxySource.FetchResult(api, page).Err?
    ensures r.Err? ==> r.error == ProxySource.FetchResult(api, page).error
    ensures r.Ok? ==>
              var proxies := ProxySource.FetchResult(api, page).value;
              var (text, summary) := r.value;
              text == JoinLines(Successes(completions)) &&
              summary == Summary(|Successes(completions)|, |proxies|) &&
              summary.working <= summary.total
    ensures r.Ok? && (ProxySource.ApiAttempt(api).Ok? || ProxySource.AddressCellsSingleLine(page)) ==>
              SplitLines(r.value.0) == Successes(completions) && Count('\n', r.value.0) == r.value.1.working
  {
    var fetched := ProxySource.FetchProxies(api, page);
    if fetched.Err? {
      return ProxySource.Err(fetched.error);
    }
    var proxies := fetched.value;
    var working, tested, workingCount := Coordinate(proxies, outcomes, completions);
    var text := WriteResults(working);
    if ProxySource.ApiAttempt(api).Ok? || ProxySource.AddressCellsSingleLine(page) {
      if ProxySource.ApiAttempt(api).Ok? {
        ProxySource.ApiEndpointsWellFormed(api.body);
      } else {
        ProxySource.FallbackEndpointsSingleLine(page);
      }
      forall i | 0 <= i < |working| ensures NoLineBreak(working[i]) && '\n' !in working[i] {
        WorkingIff(proxies, outcomes, completions, working[i]);
        var j :| 0 <= j < |proxies| && proxies[j] == working[i] && outcomes[j] == Responded(200);
        assert NoLineBreak(proxies[j]);
      }
    }
    r := ProxySource.Ok((text, Summary(|working|, |proxies|)));
  }
}
