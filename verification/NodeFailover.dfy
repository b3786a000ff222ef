/**
 The module-level state of the node failover: two configured hosts, the active host, the handle of the
 retry interval and the gas limit of a custom node. The runtime's table of live intervals is part of the
 state, so that a handle that is overwritten without being cleared would show up as a second live interval.
 */
module NodeFailover {
  import opened Wrappers

  const NODE2_HOST := "https://node2.stoachain.com"
  const NODE1_HOST := "https://node1.stoachain.com"
  const PRESET_GAS_LIMIT := 2_000_000
  const DEFAULT_GAS_LIMIT := 1_600_000

  /** What a caller passes as `customUrl`, as far as the WHATWG URL parser and the truthiness test see it. */
  datatype CustomUrl = Missing | Unparsable | Parsed(protocol: string, origin: string)

  datatype Selection = Node2 | Node1 | Custom(url: CustomUrl)

  datatype ConfigError = UrlRequired | UrlInvalid | SchemeRefused(protocol: string)

  /** The values of the module variables, with the runtime's interval table. */
  datatype Node = Node(
    primary: string,
    fallback: string,
    current: string,
    timer: Option<nat>,
    live: set<nat>,
    next: nat,
    customGas: int)

  const INITIAL := Node(NODE2_HOST, NODE1_HOST, NODE2_HOST, None, {}, 0, DEFAULT_GAS_LIMIT)

  function BaseUrl(host: string): (url: string) {
    host + "/chainweb/0.0/stoa"
  }

  /** Two hosts have the same base URL only if they are the same host, so comparing URLs compares hosts. */
  lemma BaseUrlInjective(h1: string, h2: string)
    ensures BaseUrl(h1) == BaseUrl(h2) <==> h1 == h2
  {
    if BaseUrl(h1) == BaseUrl(h2) {
      assert h1 == BaseUrl(h1)[..|h1|];
      assert h2 == BaseUrl(h2)[..|h1|];
    }
  }

  /** The active host is one of the configured pair; the interval table holds the retry handle and nothing
      else; and the retry interval runs only while the active host is a fallback distinct from the primary. */
  ghost predicate Inv(n: Node) {
    && (n.current == n.primary || n.current == n.fallback)
    && n.live == (if n.timer.Some? then {n.timer.value} else {})
    && (n.timer.Some? ==> n.timer.value < n.next)
    && (n.timer.Some? ==> OnDistinctFallback(n))
  }

  predicate OnDistinctFallback(n: Node) {
    n.current == n.fallback && n.fallback != n.primary
  }

  /** On a distinct fallback with nothing scheduled to look at the primary again. */
  predicate Stranded(n: Node) {
    OnDistinctFallback(n) && n.timer.None?
  }

  // ---------- What each operation does to a state that satisfies the invariant ----------

  function ToFallback(n: Node): Node {
    if n.current == n.fallback then n
    else n.(current := n.fallback, timer := Some(n.next), live := {n.next}, next := n.next + 1)
  }

  function ToPrimary(n: Node): Node {
    n.(current := n.primary, timer := None, live := {})
  }

  function Quiet(n: Node): Node {
    n.(timer := None, live := {})
  }

  function ConfigProblem(sel: Selection): (e: Option<ConfigError>) {
    match sel
    case Custom(Missing) => Some(UrlRequired)
    case Custom(Unparsable) => Some(UrlInvalid)
    case Custom(Parsed(protocol, _)) => if protocol == "https:" then None else Some(SchemeRefused(protocol))
    case _ => None
  }

  function HostPair(sel: Selection): (string, string)
    requires ConfigProblem(sel).None?
  {
    match sel
    case Node1 => (NODE1_HOST, NODE2_HOST)
    case Node2 => (NODE2_HOST, NODE1_HOST)
    case Custom(Parsed(_, origin)) => (origin, origin)
  }

  /** A refused configuration has already stopped the retry interval and changes nothing else. */
  function Configured(n: Node, sel: Selection, gas: Option<int>): Node {
    if ConfigProblem(sel).Some? then Quiet(n)
    else
      var (p, f) := HostPair(sel);
      Node(p, f, p, None, {}, n.next, if gas.Some? then gas.value else DEFAULT_GAS_LIMIT)
  }

  function Restarted(n: Node): Node {
    INITIAL.(next := n.next)
  }

  function ActiveGasLimit(n: Node): int {
    if n.current == NODE2_HOST || n.current == NODE1_HOST then PRESET_GAS_LIMIT else n.customGas
  }

  // ---------- Errors thrown by the wrapped call ----------

  /** The two facts about a thrown value that the failover looks at: whether its name is `AbortError`, and
      whether its message contains one of the three network markers. */
  datatype Thrown = Thrown(abortName: bool, networkMessage: bool)

  predicate IsNetworkError(e: Thrown) {
    e.networkMessage || e.abortName
  }

  /** The catch block: a network error of a call that was captured on the primary switches to the fallback
      and names the URL of the retry; anything else is rethrown. */
  function Caught(n: Node, e: Thrown, url: string, primaryUrl: string): (Node, Option<string>) {
    if IsNetworkError(e) && url == primaryUrl
    then (ToFallback(n), Some(BaseUrl(n.fallback)))
    else (n, None)
  }

  // ---------- The module as the source writes it ----------

  class Failover {
    var primaryHost: string
    var fallbackHost: string
    var currentHost: string
    var retryTimer: Option<nat>
    var customGasLimit: int
    // The runtime's side of setInterval and clearInterval.
    var intervals: set<nat>
    var nextHandle: nat

    function View(): Node
      reads this
    {
      Node(primaryHost, fallbackHost, currentHost, retryTimer, intervals, nextHandle, customGasLimit)
    }

    ghost predicate Valid()
      reads this
    {
      Inv(View())
    }

    constructor ()
      ensures Valid() && View() == INITIAL
    {
      primaryHost, fallbackHost, currentHost := NODE2_HOST, NODE1_HOST, NODE2_HOST;
      retryTimer := None;
      customGasLimit := DEFAULT_GAS_LIMIT;
      intervals, nextHandle := {}, 0;
    }

    method StartRetryLoop()
      modifies this
      ensures old(retryTimer).Some? ==> View() == old(View())
      ensures old(retryTimer).None? ==>
        View() == old(View()).(timer := Some(old(nextHandle)), live := old(intervals) + {old(nextHandle)},
                               next := old(nextHandle) + 1)
    {
      if retryTimer.Some? { return; }
      var handle := nextHandle;
      intervals := intervals + {handle};
      nextHandle := nextHandle + 1;
      retryTimer := Some(handle);
    }

    method StopRetryLoop()
      requires intervals == (if retryTimer.Some? then {retryTimer.value} else {})
      modifies this
      ensures View() == Quiet(old(View()))
    {
      if retryTimer.Some? {
        intervals := intervals - {retryTimer.value};
        retryTimer := None;
      }
    }

    method SwitchToFallback()
      requires Valid()
      modifies this
      ensures Valid() && View() == ToFallback(old(View()))
    {
      if currentHost == fallbackHost { return; }
      currentHost := fallbackHost;
      StartRetryLoop();
    }

    method SwitchToPrimary()
      requires Valid()
      modifies this
      ensures Valid() && View() == ToPrimary(old(View()))
    {
      if currentHost == primaryHost { return; }
      currentHost := primaryHost;
      StopRetryLoop();
    }

    method SetNodeConfig(selected: Selection, gas: Option<int>) returns (r: Result<(), ConfigError>)
      requires Valid()
      modifies this
      ensures Valid() && View() == Configured(old(View()), selected, gas)
      ensures r.Ok? <==> ConfigProblem(selected).None?
      ensures r == match selected
                   case Custom(Missing) => Err(UrlRequired)
                   case Custom(Unparsable) => Err(UrlInvalid)
                   case Custom(Parsed(protocol, _)) =>
                     if protocol == "https:" then Ok(()) else Err(SchemeRefused(protocol))
                   case _ => Ok(())
    {
      StopRetryLoop();
      match selected {
        case Node1 =>
          primaryHost := NODE1_HOST;
          fallbackHost := NODE2_HOST;
        case Custom(Missing) => return Err(UrlRequired);
        case Custom(Unparsable) => return Err(UrlInvalid);
        case Custom(Parsed(protocol, origin)) =>
          if protocol != "https:" { return Err(SchemeRefused(protocol)); }
          primaryHost := origin;
          fallbackHost := origin;
        case Node2 =>
          primaryHost := NODE2_HOST;
          fallbackHost := NODE1_HOST;
      }
      customGasLimit := if gas.Some? then gas.value else DEFAULT_GAS_LIMIT;
      currentHost := primaryHost;
      r := Ok(());
    }

    method ResetNodeFailover()
      requires Valid()
      modifies this
      ensures Valid() && View() == Restarted(old(View()))
    {
      StopRetryLoop();
      primaryHost := NODE2_HOST;
      fallbackHost := NODE1_HOST;
      customGasLimit := DEFAULT_GAS_LIMIT;
      currentHost := primaryHost;
      retryTimer := None;
    }

    method GetActiveGasLimit() returns (limit: int)
      ensures limit == ActiveGasLimit(View())
    {
      if currentHost == NODE2_HOST || currentHost == NODE1_HOST {
        limit := PRESET_GAS_LIMIT;
      } else {
        limit := customGasLimit;
      }
    }

    /** The catch block of `withFailover`, run whenever the rejection of the first attempt is delivered. */
    method CatchFirstAttempt(e: Thrown, attemptedBaseUrl: string, attemptedPrimaryBaseUrl: string)
      returns (retryUrl: Option<string>)
      requires Valid()
      modifies this
      ensures Valid()
      ensures (View(), retryUrl) == Caught(old(View()), e, attemptedBaseUrl, attemptedPrimaryBaseUrl)
    {
      if IsNetworkError(e) && attemptedBaseUrl == attemptedPrimaryBaseUrl {
        SwitchToFallback();
        retryUrl := Some(BaseUrl(currentHost));
      } else {
        retryUrl := None;
      }
    }
  }
}
