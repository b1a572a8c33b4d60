/** The content-server supervision shared by both scripts: the sequential
    port probe (findAvailablePort), the bounded readiness poll
    (waitForMarkserv) and the URL the wrapper is served at. Sockets are
    replaced by their outcomes: a set of ports on which listening fails, and
    the result of each connection attempt. */
module Markserv {
  import opened Wrappers
  import opened Errors

  const DefaultPort := 8000
  const LivereloadBasePort := 35729
  const MaxPort := 65535
  const ReadyAttempts := 10

  /** `p` is the least port from `start` on where listening succeeds. */
  predicate FirstFree(busy: set<int>, start: int, p: int) {
    start <= p <= MaxPort && p !in busy && forall q :: start <= q < p ==> q in busy
  }

  /** Listening fails on every port from `start` up to 65535. */
  predicate AllBusy(busy: set<int>, start: int) {
    forall q :: start <= q <= MaxPort ==> q in busy
  }

  /** findAvailablePort: tries to listen on `startPort`, `startPort + 1`, ...
      and answers the first port where listening succeeds. Every port the
      search passes over is busy. Past 65535 server.listen throws a
      RangeError, which rejects the whole chain. */
  method FindAvailablePort(busy: set<int>, startPort: int) returns (r: Result<int, Failure>)
    requires startPort >= 1
    ensures r.Success? ==> FirstFree(busy, startPort, r.value)
    ensures r.Failure? ==> AllBusy(busy, startPort)
    ensures r.Failure? ==> r.error == PortOutOfRange(if startPort > MaxPort then startPort else MaxPort + 1)
  {
    var port := startPort;
    while port <= MaxPort && port in busy
      invariant startPort <= port
      invariant port <= MaxPort + 1 || port == startPort
      invariant forall q :: startPort <= q < port ==> q in busy
      decreases MaxPort + 1 - port
    {
      port := port + 1;
    }
    if port > MaxPort {
      r := Failure(PortOutOfRange(port));
    } else {
      r := Success(port);
    }
  }

  /** waitForMarkserv: connects up to `maxAttempts` times, returning at the
      first connection that succeeds; after a failure it pauses before the
      next attempt, but not after the last one, where it throws. With
      `maxAttempts <= 0` it returns at once without connecting.
      `connects(i)` is the outcome of attempt number i (from 0). */
  method WaitForMarkserv(connects: nat -> bool, maxAttempts: int)
    returns (err: Option<Failure>, attempts: nat, pauses: nat)
    ensures maxAttempts <= 0 ==> err == None && attempts == 0 && pauses == 0
    ensures maxAttempts > 0 ==> 1 <= attempts <= maxAttempts && pauses == attempts - 1
    ensures forall i: nat :: i < attempts - 1 ==> !connects(i)
    ensures maxAttempts > 0 ==> (err == None <==> connects(attempts - 1))
    ensures err.Some? ==> attempts == maxAttempts && err.value == MarkservNotReady(maxAttempts)
  {
    err, attempts, pauses := None, 0, 0;
    var i := 0;
    while i < maxAttempts
      invariant 0 <= i && attempts == i && pauses == i
      invariant i == 0 || i < maxAttempts
      invariant forall k: nat :: k < i ==> !connects(k)
    {
      attempts := attempts + 1;
      if connects(i) {
        return;
      }
      if i == maxAttempts - 1 {
        err := Some(MarkservNotReady(maxAttempts));
        return;
      }
      pauses := pauses + 1;
      i := i + 1;
    }
  }

  /** The number a string of decimal digits denotes, read in base 10. */
  function DigitsValue(s: string): int {
    if s == [] then 0
    else DigitsValue(s[..|s| - 1]) * 10 + (s[|s| - 1] as int - '0' as int)
  }

  /** Number.prototype.toString for a natural number; DecimalStringValue
      states which digits it gives. */
  function DecimalString(n: nat): (r: string)
    ensures |r| >= 1 && forall i :: 0 <= i < |r| ==> '0' <= r[i] <= '9'
  {
    var digit := ('0' as int + n % 10) as char;
    if n < 10 then [digit] else DecimalString(n / 10) + [digit]
  }

  /** The string toString gives for `n` is the decimal numeral denoting `n`,
      without a leading zero. */
  lemma {:induction false} DecimalStringValue(n: nat)
    ensures var r := DecimalString(n);
      && DigitsValue(r) == n
      && (n > 0 ==> r[0] != '0')
      && (n < 10 <==> |r| == 1)
  {
    if n >= 10 {
      DecimalStringValue(n / 10);
      var r := DecimalString(n);
      assert r[..|r| - 1] == DecimalString(n / 10);
    }
  }

  /** The arguments `npx` is given to start markserv. markpdf.js:70 passes
      `--no-browser`; markpdf-chromium.js:64 does not, so there markserv may
      open a browser window. */
  function MarkservArgs(port: nat, livereloadPort: nat, noBrowser: bool): seq<string> {
    ["markserv", "--port", DecimalString(port)]
    + (if noBrowser then ["--no-browser"] else [])
    + ["--silent", "--livereloadport", DecimalString(livereloadPort)]
  }

  /** markserv is told not to open a browser exactly when the flag is set;
      the ports are the third and the last argument either way. */
  lemma MarkservArgsBrowserFlag(port: nat, livereloadPort: nat, noBrowser: bool)
    ensures var a := MarkservArgs(port, livereloadPort, noBrowser);
      && ("--no-browser" in a <==> noBrowser)
      && |a| == (if noBrowser then 7 else 6)
      && a[2] == DecimalString(port) && a[|a| - 1] == DecimalString(livereloadPort)
  {
    var a := MarkservArgs(port, livereloadPort, noBrowser);
    if !noBrowser {
      assert "--no-browser"[0] == '-';
      assert a == ["markserv", "--port", DecimalString(port), "--silent",
                   "--livereloadport", DecimalString(livereloadPort)];
      assert "--no-browser" != DecimalString(port) && "--no-browser" != DecimalString(livereloadPort);
    }
  }

  /** The address markserv serves the wrapper at. */
  function ServerUrl(port: nat, htmlFile: string): string {
    "http://localhost:" + DecimalString(port) + "/" + htmlFile
  }
}
