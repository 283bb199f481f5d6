/** The proxy checker (`test_proxy` and `check`): one GET through the proxy,
    collapsed into a yes/no verdict. The request itself is not modelled: its
    outcome is the input. */
module ProxyCheck {

  /** How the GET through a proxy ended: an HTTP status, or any exception
      (refused connection, timeout, TLS or DNS failure, malformed proxy). */
  datatype Outcome = Responded(status: int) | Raised

  /** `test_proxy`: the proxy works exactly when the answer is status 200;
      every exception is absorbed as `false`, so no outcome escapes. */
  function TestProxy(outcome: Outcome): (ok: bool)
    ensures ok <==> outcome == Responded(200)
    ensures outcome.Raised? ==> !ok
  {
    match outcome
    case Raised => false
    case Responded(status) => status == 200
  }

  /** What the pool hands back for one proxy: the proxy and its verdict. */
  datatype Completion = Completion(proxy: string, ok: bool)

  /** `check(proxy)`: the verdict is paired with the very proxy tested. */
  function Check(proxy: string, outcome: Outcome): (c: Completion)
    ensures c.proxy == proxy
    ensures c.ok <==> outcome == Responded(200)
  {
    Completion(proxy, TestProxy(outcome))
  }
}
