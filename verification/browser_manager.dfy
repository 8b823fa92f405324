/** The logic of `Browser` (core/browser_manager.py) beyond the tab methods: the
    browser-kind check of `_start_driver`, the `timeout or self.explicit_timeout`
    fallback, and the decorated operations `wait_for`, `click`, `type`, `get_text`
    and `extract_table`, with `go_to` and `quit`.

    What the driver answers is given per attempt: `found(k)` is what the presence
    wait of the k-th `wait_for` attempt ends with (an element id, or the exception it
    raises), and the environments of nested calls are indexed by the attempt of the
    caller that makes them. */
module BrowserManager {
  import opened Outcomes
  import opened Decorators
  import opened ErrorHandler
  import opened Table

  datatype BrowserKind = Chrome | Firefox

  predicate IsUpper(c: char) { 'A' <= c <= 'Z' }

  function LowerChar(c: char): char
  {
    if IsUpper(c) then (c as int + 32) as char else c
  }

  /** `s.lower()` on ASCII letters. */
  function Lower(s: string): (r: string)
    ensures |r| == |s|
    ensures forall i :: 0 <= i < |s| ==> !IsUpper(r[i]) && (!IsUpper(s[i]) ==> r[i] == s[i])
    ensures forall i :: 0 <= i < |s| && IsUpper(s[i]) ==> r[i] as int == s[i] as int + 32
  {
    seq(|s|, i requires 0 <= i < |s| => LowerChar(s[i]))
  }

  /** `self.browser_name = browser.lower() or cfg.get("BROWSER", "chrome")`: the
      configured name is used as it is, without lower-casing. */
  function BrowserName(browser: string, configured: string): string
  {
    if Lower(browser) != "" then Lower(browser) else configured
  }

  /** The closed choice of `_start_driver`. */
  function SelectBrowser(browser: string, configured: string): Outcome<BrowserKind>
  {
    var name := BrowserName(browser, configured);
    if name == "chrome" then Ok(Chrome)
    else if name == "firefox" then Ok(Firefox)
    else Err(UnsupportedBrowser(name))
  }

  /** Which arguments start a driver: a given name in any letter case, or, when none
      is given, a configured name spelled exactly in lower case. Every other name is
      rejected with the `ValueError` that names it. */
  lemma SelectBrowserAccepts(browser: string, configured: string)
    ensures SelectBrowser(browser, configured).Ok?
        <==> (browser != "" && (Lower(browser) == "chrome" || Lower(browser) == "firefox"))
             || (browser == "" && (configured == "chrome" || configured == "firefox"))
    ensures SelectBrowser(browser, configured) == Ok(Chrome) <==> BrowserName(browser, configured) == "chrome"
    ensures SelectBrowser(browser, configured).Err?
        ==> SelectBrowser(browser, configured).exc == UnsupportedBrowser(BrowserName(browser, configured))
  {
    assert |Lower(browser)| == |browser|;
  }

  /** Lower-casing the argument first changes nothing. */
  lemma SelectBrowserCaseInsensitive(browser: string, configured: string)
    ensures SelectBrowser(Lower(browser), configured) == SelectBrowser(browser, configured)
  {
    var l := Lower(browser);
    assert Lower(l) == l;
  }

  /** `"FireFox"` is accepted, while a configured `"Chrome"` is not. */
  lemma ConfiguredNameIsNotLowered()
    ensures SelectBrowser("FireFox", "") == Ok(Firefox)
    ensures SelectBrowser("", "Chrome") == Err(UnsupportedBrowser("Chrome"))
  {
    assert Lower("FireFox") == "firefox";
    assert Lower("") == "";
  }

  /** `timeout or fallback`: None and 0 are falsy. */
  function EffectiveTimeout(timeout: Option<int>, fallback: int): (t: int)
    ensures timeout.Some? && timeout.value != 0 ==> t == timeout.value
    ensures (timeout.None? || timeout.value == 0) ==> t == fallback
  {
    if timeout.Some? && timeout.value != 0 then timeout.value else fallback
  }

  /** A method that resolves the fallback and hands the result on to `wait_for`,
      which resolves it again, waits as long as a direct call would. */
  lemma FallbackIsStable(timeout: Option<int>, fallback: int)
    ensures EffectiveTimeout(Some(EffectiveTimeout(timeout, fallback)), fallback) == EffectiveTimeout(timeout, fallback)
  {
  }

  datatype Session = Session(kind: BrowserKind, headless: bool, explicitTimeout: int)

  /** `Browser(browser, headless, explicit_timeout=...)` with the name and `headless`
      given: the driver is started only for a supported kind. */
  function Start(browser: string, configured: string, headless: bool, explicitTimeout: Option<int>,
                 configuredTimeout: int): (r: Outcome<Session>)
    ensures r.Ok? <==> SelectBrowser(browser, configured).Ok?
    ensures r.Ok? ==> r.value.kind == SelectBrowser(browser, configured).value
                      && r.value.explicitTimeout == EffectiveTimeout(explicitTimeout, configuredTimeout)
                      && (r.value.explicitTimeout != 0 || configuredTimeout == 0)
    ensures r.Err? ==> r == Err(UnsupportedBrowser(BrowserName(browser, configured)))
  {
    match SelectBrowser(browser, configured)
    case Err(e) => Err(e)
    case Ok(kind) => Ok(Session(kind, headless, EffectiveTimeout(explicitTimeout, configuredTimeout)))
  }

  /** A locator: the `By` strategy and the selector. */
  datatype Locator = Locator(strategy: string, selector: string)

  /** `By.CSS_SELECTOR`, the default strategy. */
  const CssSelector: string := "css selector"

  /** `self.driver.get(url)`, raising `nav` if that is present. */
  function GoTo(url: string, nav: Option<Exc>): (r: Run<()>)
    ensures r.trace == [Navigate(url)]
    ensures r.outcome.Ok? <==> nav.None?
  {
    Run(if nav.Some? then Err(nav.value) else Ok(()), [Navigate(url)])
  }

  // ---------------------------------------------------------------------------
  // wait_for
  // ---------------------------------------------------------------------------

  /** What one `wait_for` call meets: the presence wait's answer per attempt, and its
      capture's environment. */
  datatype WaitEnv = WaitEnv(found: nat -> Outcome<nat>, cap: CaptureEnv)

  /** The body of `wait_for`: one presence wait with the resolved timeout. */
  function PollOnce(loc: Locator, timeout: int, found: nat -> Outcome<nat>): nat -> Run<nat>
  {
    (k: nat) => Run(found(k), [Poll(loc.strategy, loc.selector, timeout)])
  }

  /** `wait_for(selector, by, timeout)`: capture outside, three attempts 1.5 s apart. */
  function WaitFor(s: Session, loc: Locator, timeout: Option<int>, env: WaitEnv): Run<nat>
  {
    Capture("wait_for", Retry(3, 1500, "wait_for", PollOnce(loc, EffectiveTimeout(timeout, s.explicitTimeout), env.found)), env.cap)
  }

  /** The element is present at the k-th attempt after k-1 timeouts: `wait_for` returns
      it after exactly k presence waits, with no evidence written. */
  lemma WaitFoundOnAttempt(s: Session, loc: Locator, timeout: Option<int>, env: WaitEnv, k: nat)
    requires 1 <= k <= 3
    requires forall j :: 1 <= j < k ==> env.found(j).Err? && env.found(j).exc.IsException()
    requires env.found(k).Ok?
    ensures WaitFor(s, loc, timeout, env).outcome == env.found(k)
    ensures CountWhere(WaitFor(s, loc, timeout, env).trace, IsPoll) == k
    ensures Artifacts(WaitFor(s, loc, timeout, env).trace) == []
  {
    var t := EffectiveTimeout(timeout, s.explicitTimeout);
    var body := PollOnce(loc, t, env.found);
    var poll := Poll(loc.strategy, loc.selector, t);
    RetryStopsAtFirstNonFailure(3, 1500, "wait_for", body, k);
    CountSingle(poll, IsPoll);
    RetryStopCount(3, 1500, "wait_for", body, k, IsPoll, 1);
    var q: Event -> bool := (e: Event) => !e.Screenshot? && !e.HtmlDump?;
    RetryKeeps(3, 1500, "wait_for", body, q);
    NoArtifactsOutsideCapture(Retry(3, 1500, "wait_for", body).trace);
  }

  predicate IsPoll(e: Event) { e.Poll? }
  predicate LogsWaitFor(e: Event) { e == LogException("wait_for") }
  predicate LogsClick(e: Event) { e == LogException("click") }
  predicate LogsType(e: Event) { e == LogException("type") }
  predicate LogsExtract(e: Event) { e == LogException("extract_table") }
  predicate IsKeyboard(e: Event) { e.ClearElement? || e.SendKeys? }
  predicate IsFindRows(e: Event) { e.FindRows? }

  /** Every presence wait of a `wait_for` call is for its locator with the resolved
      timeout, whichever attempts fail. */
  lemma WaitPollsSameLocator(s: Session, loc: Locator, timeout: Option<int>, env: WaitEnv)
    ensures forall i :: 0 <= i < |WaitFor(s, loc, timeout, env).trace| && WaitFor(s, loc, timeout, env).trace[i].Poll?
              ==> WaitFor(s, loc, timeout, env).trace[i] == Poll(loc.strategy, loc.selector, EffectiveTimeout(timeout, s.explicitTimeout))
  {
    var poll := Poll(loc.strategy, loc.selector, EffectiveTimeout(timeout, s.explicitTimeout));
    var q: Event -> bool := (e: Event) => e.Poll? ==> e == poll;
    WaitKeeps(s, loc, timeout, env, q);
  }

  /** A trace without screenshot or HTML events lists no evidence file. */
  lemma {:induction false} NoArtifactsOutsideCapture(t: seq<Event>)
    requires forall i :: 0 <= i < |t| ==> !t[i].Screenshot? && !t[i].HtmlDump?
    ensures Artifacts(t) == []
  {
    if |t| > 0 {
      NoArtifactsOutsideCapture(t[1..]);
    }
  }

  /** A call decorated with `capture_failures` over `retry_on_fail` whose attempts all
      raise Exceptions, counted by a property that none of the wrapper's own events
      and none of the evidence events has: `c` per attempt, and one more when the
      property holds of the logged exception. */
  lemma ExhaustedCount<T>(name: string, retries: int, delay: nat, body: nat -> Run<T>, cap: CaptureEnv, p: Event -> bool, c: nat)
    requires retries >= 1
    requires forall j :: 1 <= j <= retries ==> FailsWithException(body(j))
    requires forall j :: 1 <= j <= retries ==> CountWhere(body(j).trace, p) == c
    requires Tolerable(cap)
    requires !p(Call(name)) && !p(Sleep(name, delay)) && forall k: int :: !p(AttemptFailed(name, k, retries))
    requires forall e: Event :: (e.MakeDirs? || e.Screenshot? || e.HtmlDump?) ==> !p(e)
    ensures Capture(name, Retry(retries, delay, name, body), cap).outcome == body(retries).outcome
    ensures CountWhere(Capture(name, Retry(retries, delay, name, body), cap).trace, p)
         == retries * c + (if p(LogException(name)) then 1 else 0)
  {
    RetryExhausted(retries, delay, name, body);
    RetryExhaustedCount(retries, delay, name, body, p, c);
    var r := Retry(retries, delay, name, body);
    CaptureOnFailure(name, r, cap);
    CountWhereAppend(r.trace, CaptureEvents(name, cap), p);
    CaptureEventsCount(name, cap, p);
  }

  /** The three attempts of a `wait_for` whose element never appears, as counted by
      a property that none of the retry wrapper's own events has. */
  lemma WaitNeverFoundCount(s: Session, loc: Locator, timeout: Option<int>, env: WaitEnv, p: Event -> bool)
    requires forall j :: 1 <= j <= 3 ==> env.found(j).Err? && env.found(j).exc.IsException()
    requires Tolerable(env.cap)
    requires !p(Call("wait_for")) && !p(Sleep("wait_for", 1500)) && forall k: int :: !p(AttemptFailed("wait_for", k, 3))
    requires forall e: Event :: (e.MakeDirs? || e.Screenshot? || e.HtmlDump?) ==> !p(e)
    ensures WaitFor(s, loc, timeout, env).outcome == env.found(3)
    ensures CountWhere(WaitFor(s, loc, timeout, env).trace, p)
         == 3 * (if p(Poll(loc.strategy, loc.selector, EffectiveTimeout(timeout, s.explicitTimeout))) then 1 else 0)
            + (if p(LogException("wait_for")) then 1 else 0)
  {
    var t := EffectiveTimeout(timeout, s.explicitTimeout);
    var body := PollOnce(loc, t, env.found);
    var poll := Poll(loc.strategy, loc.selector, t);
    CountSingle(poll, p);
    ExhaustedCount("wait_for", 3, 1500, body, env.cap, p, if p(poll) then 1 else 0);
  }

  // ---------------------------------------------------------------------------
  // click
  // ---------------------------------------------------------------------------

  /** What one `click` call meets, per attempt: the nested `wait_for`, and what
      `element.click()` raises; and its own capture's environment. */
  datatype ClickEnv = ClickEnv(wait: nat -> WaitEnv, click: nat -> Option<Exc>, cap: CaptureEnv)

  /** The body of `click`: the decorated `wait_for`, then `element.click()`. */
  function ClickAttempt(s: Session, loc: Locator, timeout: int, env: ClickEnv): nat -> Run<()>
  {
    (k: nat) =>
      var w := WaitFor(s, loc, Some(timeout), env.wait(k));
      if w.outcome.Err? then Propagate(w)
      else Run(if env.click(k).Some? then Err(env.click(k).value) else Ok(()), w.trace + [ClickElement(w.outcome.value)])
  }

  /** `click(selector, by, timeout)`: capture outside, three attempts 2 s apart, each
      running the decorated `wait_for` with its own three attempts. */
  function Click(s: Session, loc: Locator, timeout: Option<int>, env: ClickEnv): Run<()>
  {
    Capture("click", Retry(3, 2000, "click", ClickAttempt(s, loc, EffectiveTimeout(timeout, s.explicitTimeout), env)), env.cap)
  }

  /** The locator never appears: three click attempts run three `wait_for` attempts
      each, nine presence waits in all, and the last wait's exception is what `click`
      raises. */
  lemma ClickNeverFound(s: Session, loc: Locator, timeout: Option<int>, env: ClickEnv)
    requires forall k, j :: 1 <= k <= 3 && 1 <= j <= 3 ==> env.wait(k).found(j).Err? && env.wait(k).found(j).exc.IsException()
    requires forall k :: 1 <= k <= 3 ==> Tolerable(env.wait(k).cap)
    requires Tolerable(env.cap)
    ensures Click(s, loc, timeout, env).outcome == Err(env.wait(3).found(3).exc)
    ensures CountWhere(Click(s, loc, timeout, env).trace, IsPoll) == 9
  {
    ClickNeverFoundCount(s, loc, timeout, env, IsPoll);
  }

  /** With the locator never appearing, each of the three `wait_for` calls captures evidence once. */
  lemma ClickNeverFoundWaitCaptures(s: Session, loc: Locator, timeout: Option<int>, env: ClickEnv)
    requires forall k, j :: 1 <= k <= 3 && 1 <= j <= 3 ==> env.wait(k).found(j).Err? && env.wait(k).found(j).exc.IsException()
    requires forall k :: 1 <= k <= 3 ==> Tolerable(env.wait(k).cap)
    requires Tolerable(env.cap)
    ensures CountWhere(Click(s, loc, timeout, env).trace, LogsWaitFor) == 3
  {
    ClickNeverFoundCount(s, loc, timeout, env, LogsWaitFor);
  }

  /** With the locator never appearing, `click` captures evidence once, after its last attempt. */
  lemma ClickNeverFoundOwnCapture(s: Session, loc: Locator, timeout: Option<int>, env: ClickEnv)
    requires forall k, j :: 1 <= k <= 3 && 1 <= j <= 3 ==> env.wait(k).found(j).Err? && env.wait(k).found(j).exc.IsException()
    requires forall k :: 1 <= k <= 3 ==> Tolerable(env.wait(k).cap)
    requires Tolerable(env.cap)
    ensures CountWhere(Click(s, loc, timeout, env).trace, LogsClick) == 1
  {
    ClickNeverFoundCount(s, loc, timeout, env, LogsClick);
  }

  /** The count, by any property the wrappers' own events lack, of a `click` call
      whose element never appears: per attempt, the presence waits and the capture of
      one `wait_for` call; then the capture of `click` itself. */
  lemma ClickNeverFoundCount(s: Session, loc: Locator, timeout: Option<int>, env: ClickEnv, p: Event -> bool)
    requires forall k, j :: 1 <= k <= 3 && 1 <= j <= 3 ==> env.wait(k).found(j).Err? && env.wait(k).found(j).exc.IsException()
    requires forall k :: 1 <= k <= 3 ==> Tolerable(env.wait(k).cap)
    requires Tolerable(env.cap)
    requires !p(Call("wait_for")) && !p(Sleep("wait_for", 1500)) && forall k: int :: !p(AttemptFailed("wait_for", k, 3))
    requires !p(Call("click")) && !p(Sleep("click", 2000)) && forall k: int :: !p(AttemptFailed("click", k, 3))
    requires forall e: Event :: (e.MakeDirs? || e.Screenshot? || e.HtmlDump?) ==> !p(e)
    ensures Click(s, loc, timeout, env).outcome == Err(env.wait(3).found(3).exc)
    ensures CountWhere(Click(s, loc, timeout, env).trace, p)
         == 3 * (3 * (if p(Poll(loc.strategy, loc.selector, EffectiveTimeout(timeout, s.explicitTimeout))) then 1 else 0) + (if p(LogException("wait_for")) then 1 else 0)) + (if p(LogException("click")) then 1 else 0)
  {
    var t := EffectiveTimeout(timeout, s.explicitTimeout);
    FallbackIsStable(timeout, s.explicitTimeout);
    var body := ClickAttempt(s, loc, t, env);
    var c := 3 * (if p(Poll(loc.strategy, loc.selector, t)) then 1 else 0) + (if p(LogException("wait_for")) then 1 else 0);
    ClickAttemptsNeverFound(s, loc, t, env, p);
    ExhaustedCount("click", 3, 2000, body, env.cap, p, c);
  }

  /** Every click attempt meets a `wait_for` that never finds the element. */
  lemma ClickAttemptsNeverFound(s: Session, loc: Locator, t: int, env: ClickEnv, p: Event -> bool)
    requires forall k, j :: 1 <= k <= 3 && 1 <= j <= 3 ==> env.wait(k).found(j).Err? && env.wait(k).found(j).exc.IsException()
    requires forall k :: 1 <= k <= 3 ==> Tolerable(env.wait(k).cap)
    requires !p(Call("wait_for")) && !p(Sleep("wait_for", 1500)) && forall k: int :: !p(AttemptFailed("wait_for", k, 3))
    requires forall e: Event :: (e.MakeDirs? || e.Screenshot? || e.HtmlDump?) ==> !p(e)
    ensures forall k :: 1 <= k <= 3 ==> FailsWithException(ClickAttempt(s, loc, t, env)(k))
    ensures forall k :: 1 <= k <= 3 ==> ClickAttempt(s, loc, t, env)(k).outcome == Err(env.wait(k).found(3).exc)
    ensures forall k :: 1 <= k <= 3 ==> CountWhere(ClickAttempt(s, loc, t, env)(k).trace, p) == 3 * (if p(Poll(loc.strategy, loc.selector, EffectiveTimeout(Some(t), s.explicitTimeout))) then 1 else 0) + (if p(LogException("wait_for")) then 1 else 0)
  {
    forall k | 1 <= k <= 3
      ensures FailsWithException(ClickAttempt(s, loc, t, env)(k))
      ensures ClickAttempt(s, loc, t, env)(k).outcome == Err(env.wait(k).found(3).exc)
      ensures CountWhere(ClickAttempt(s, loc, t, env)(k).trace, p) == 3 * (if p(Poll(loc.strategy, loc.selector, EffectiveTimeout(Some(t), s.explicitTimeout))) then 1 else 0) + (if p(LogException("wait_for")) then 1 else 0)
    {
      WaitNeverFoundCount(s, loc, Some(t), env.wait(k), p);
    }
  }

  /** A property of events that holds of everything one `wait_for` call can emit,
      holds of every event of every click attempt. */
  lemma ClickAttemptsKeep(s: Session, loc: Locator, t: int, env: ClickEnv, q: Event -> bool)
    requires q(Call("wait_for")) && q(Sleep("wait_for", 1500)) && forall k: int :: q(AttemptFailed("wait_for", k, 3))
    requires q(Poll(loc.strategy, loc.selector, EffectiveTimeout(Some(t), s.explicitTimeout)))
    requires forall el: nat :: q(ClickElement(el))
    requires forall e: Event :: (e.MakeDirs? || e.Screenshot? || e.HtmlDump?) ==> q(e)
    requires q(LogException("wait_for"))
    ensures forall k, i :: 0 <= i < |ClickAttempt(s, loc, t, env)(k).trace| ==> q(ClickAttempt(s, loc, t, env)(k).trace[i])
  {
    forall k: nat ensures forall i :: 0 <= i < |ClickAttempt(s, loc, t, env)(k).trace| ==> q(ClickAttempt(s, loc, t, env)(k).trace[i]) {
      WaitKeeps(s, loc, Some(t), env.wait(k), q);
    }
  }

  /** A property of events that holds of everything one `wait_for` call can emit holds
      of its whole trace. */
  lemma WaitKeeps(s: Session, loc: Locator, timeout: Option<int>, env: WaitEnv, q: Event -> bool)
    requires q(Call("wait_for")) && q(Sleep("wait_for", 1500)) && forall k: int :: q(AttemptFailed("wait_for", k, 3))
    requires q(Poll(loc.strategy, loc.selector, EffectiveTimeout(timeout, s.explicitTimeout)))
    requires forall e: Event :: (e.MakeDirs? || e.Screenshot? || e.HtmlDump?) ==> q(e)
    requires q(LogException("wait_for"))
    ensures forall i :: 0 <= i < |WaitFor(s, loc, timeout, env).trace| ==> q(WaitFor(s, loc, timeout, env).trace[i])
  {
    var wbody := PollOnce(loc, EffectiveTimeout(timeout, s.explicitTimeout), env.found);
    RetryKeeps(3, 1500, "wait_for", wbody, q);
    CaptureKeeps("wait_for", Retry(3, 1500, "wait_for", wbody), env.cap, q);
  }

  /** Every attempt of `click` receives the same arguments: every presence wait a click
      performs, across all attempts and nested retries, is for the same locator with
      the same resolved timeout. */
  lemma ClickPollsSameLocator(s: Session, loc: Locator, timeout: Option<int>, env: ClickEnv)
    ensures forall i :: 0 <= i < |Click(s, loc, timeout, env).trace| && Click(s, loc, timeout, env).trace[i].Poll?
              ==> Click(s, loc, timeout, env).trace[i] == Poll(loc.strategy, loc.selector, EffectiveTimeout(timeout, s.explicitTimeout))
  {
    var t := EffectiveTimeout(timeout, s.explicitTimeout);
    var poll := Poll(loc.strategy, loc.selector, t);
    var q: Event -> bool := (e: Event) => e.Poll? ==> e == poll;
    var body := ClickAttempt(s, loc, t, env);
    FallbackIsStable(timeout, s.explicitTimeout);
    ClickAttemptsKeep(s, loc, t, env, q);
    RetryKeeps(3, 2000, "click", body, q);
    CaptureKeeps("click", Retry(3, 2000, "click", body), env.cap, q);
  }

  /** No filtering by exception type: a first attempt that fails with any Exception,
      a wait timeout included, is retried, and a successful second attempt makes the
      whole click succeed without `click` capturing any evidence. */
  lemma ClickRetriesAnyException(s: Session, loc: Locator, timeout: Option<int>, env: ClickEnv)
    requires ClickAttempt(s, loc, EffectiveTimeout(timeout, s.explicitTimeout), env)(1).outcome.Err?
    requires ClickAttempt(s, loc, EffectiveTimeout(timeout, s.explicitTimeout), env)(1).outcome.exc.IsException()
    requires ClickAttempt(s, loc, EffectiveTimeout(timeout, s.explicitTimeout), env)(2).outcome.Ok?
    ensures Click(s, loc, timeout, env).outcome.Ok?
    ensures forall i :: 0 <= i < |Click(s, loc, timeout, env).trace| ==> Click(s, loc, timeout, env).trace[i] != LogException("click")
  {
    var t := EffectiveTimeout(timeout, s.explicitTimeout);
    var body := ClickAttempt(s, loc, t, env);
    RetryStopsAtFirstNonFailure(3, 2000, "click", body, 2);
    var q: Event -> bool := (e: Event) => e != LogException("click");
    ClickAttemptsKeep(s, loc, t, env, q);
    RetryKeeps(3, 2000, "click", body, q);
  }

  // ---------------------------------------------------------------------------
  // type, get_text, extract_table
  // ---------------------------------------------------------------------------

  /** What one `type` call meets, per attempt: the nested `wait_for`, and what
      `element.clear()` and `element.send_keys(text)` raise. */
  datatype TypeEnv = TypeEnv(wait: nat -> WaitEnv, clear: nat -> Option<Exc>, send: nat -> Option<Exc>, cap: CaptureEnv)

  /** The body of `type`: the decorated `wait_for`, an optional `clear()`, `send_keys`. */
  function TypeAttempt(s: Session, loc: Locator, text: string, timeout: int, clearFirst: bool, env: TypeEnv): nat -> Run<()>
  {
    (k: nat) =>
      var w := WaitFor(s, loc, Some(timeout), env.wait(k));
      if w.outcome.Err? then Propagate(w)
      else
        var el := w.outcome.value;
        var cleared := if clearFirst then w.trace + [ClearElement(el)] else w.trace;
        if clearFirst && env.clear(k).Some? then Run(Err(env.clear(k).value), cleared)
        else Run(if env.send(k).Some? then Err(env.send(k).value) else Ok(()), cleared + [SendKeys(el, text)])
  }

  /** `type(selector, text, by, timeout, clear_first)`: capture outside, three attempts
      1.5 s apart. */
  function Type(s: Session, loc: Locator, text: string, timeout: Option<int>, clearFirst: bool, env: TypeEnv): Run<()>
  {
    Capture("type", Retry(3, 1500, "type", TypeAttempt(s, loc, text, EffectiveTimeout(timeout, s.explicitTimeout), clearFirst, env)), env.cap)
  }

  /** The element is present at the first poll: `wait_for` returns it after one call
      and one presence wait. */
  lemma WaitFirstHit(s: Session, loc: Locator, timeout: Option<int>, env: WaitEnv)
    requires env.found(1).Ok?
    ensures WaitFor(s, loc, timeout, env)
         == Run(env.found(1), [Call("wait_for"), Poll(loc.strategy, loc.selector, EffectiveTimeout(timeout, s.explicitTimeout))])
  {
    var body := PollOnce(loc, EffectiveTimeout(timeout, s.explicitTimeout), env.found);
    RetryFirstSucceeds(3, 1500, "wait_for", body);
  }

  /** The element is found at once and accepts the keys: the field is cleared exactly
      when `clear_first` is set, right before the text is sent, and `type` succeeds. */
  lemma TypeFirstAttempt(s: Session, loc: Locator, text: string, timeout: Option<int>, clearFirst: bool, env: TypeEnv)
    requires env.wait(1).found(1).Ok? && env.clear(1).None? && env.send(1).None?
    ensures Type(s, loc, text, timeout, clearFirst, env).outcome == Ok(())
    ensures Type(s, loc, text, timeout, clearFirst, env).trace
         == [Call("type"), Call("wait_for"), Poll(loc.strategy, loc.selector, EffectiveTimeout(timeout, s.explicitTimeout))]
            + (if clearFirst then [ClearElement(env.wait(1).found(1).value)] else [])
            + [SendKeys(env.wait(1).found(1).value, text)]
  {
    var t := EffectiveTimeout(timeout, s.explicitTimeout);
    var body := TypeAttempt(s, loc, text, t, clearFirst, env);
    TypeAttemptFirstHit(s, loc, text, t, clearFirst, env);
    RetryFirstSucceeds(3, 1500, "type", body);
  }

  lemma TypeAttemptFirstHit(s: Session, loc: Locator, text: string, t: int, clearFirst: bool, env: TypeEnv)
    requires env.wait(1).found(1).Ok? && env.clear(1).None? && env.send(1).None?
    ensures TypeAttempt(s, loc, text, t, clearFirst, env)(1)
         == Run(Ok(()), [Call("wait_for"), Poll(loc.strategy, loc.selector, EffectiveTimeout(Some(t), s.explicitTimeout))]
                        + (if clearFirst then [ClearElement(env.wait(1).found(1).value)] else [])
                        + [SendKeys(env.wait(1).found(1).value, text)])
  {
    WaitFirstHit(s, loc, Some(t), env.wait(1));
  }

  /** The locator never appears: three `type` attempts run three `wait_for` attempts
      each, nine presence waits in all; nothing is cleared or typed, and the last
      wait's exception is what `type` raises. */
  lemma TypeNeverFound(s: Session, loc: Locator, text: string, timeout: Option<int>, clearFirst: bool, env: TypeEnv)
    requires forall k, j :: 1 <= k <= 3 && 1 <= j <= 3 ==> env.wait(k).found(j).Err? && env.wait(k).found(j).exc.IsException()
    requires forall k :: 1 <= k <= 3 ==> Tolerable(env.wait(k).cap)
    requires Tolerable(env.cap)
    ensures Type(s, loc, text, timeout, clearFirst, env).outcome == Err(env.wait(3).found(3).exc)
    ensures CountWhere(Type(s, loc, text, timeout, clearFirst, env).trace, IsPoll) == 9
  {
    TypeNeverFoundCount(s, loc, text, timeout, clearFirst, env, IsPoll);
  }

  /** With the locator never appearing, `type` neither clears the field nor sends a key. */
  lemma TypeNeverFoundTypesNothing(s: Session, loc: Locator, text: string, timeout: Option<int>, clearFirst: bool, env: TypeEnv)
    requires forall k, j :: 1 <= k <= 3 && 1 <= j <= 3 ==> env.wait(k).found(j).Err? && env.wait(k).found(j).exc.IsException()
    requires forall k :: 1 <= k <= 3 ==> Tolerable(env.wait(k).cap)
    requires Tolerable(env.cap)
    ensures CountWhere(Type(s, loc, text, timeout, clearFirst, env).trace, IsKeyboard) == 0
  {
    TypeNeverFoundCount(s, loc, text, timeout, clearFirst, env, IsKeyboard);
  }

  /** With the locator never appearing, each of the three `wait_for` calls captures evidence once. */
  lemma TypeNeverFoundWaitCaptures(s: Session, loc: Locator, text: string, timeout: Option<int>, clearFirst: bool, env: TypeEnv)
    requires forall k, j :: 1 <= k <= 3 && 1 <= j <= 3 ==> env.wait(k).found(j).Err? && env.wait(k).found(j).exc.IsException()
    requires forall k :: 1 <= k <= 3 ==> Tolerable(env.wait(k).cap)
    requires Tolerable(env.cap)
    ensures CountWhere(Type(s, loc, text, timeout, clearFirst, env).trace, LogsWaitFor) == 3
  {
    TypeNeverFoundCount(s, loc, text, timeout, clearFirst, env, LogsWaitFor);
  }

  /** With the locator never appearing, `type` captures evidence once, after its last attempt. */
  lemma TypeNeverFoundOwnCapture(s: Session, loc: Locator, text: string, timeout: Option<int>, clearFirst: bool, env: TypeEnv)
    requires forall k, j :: 1 <= k <= 3 && 1 <= j <= 3 ==> env.wait(k).found(j).Err? && env.wait(k).found(j).exc.IsException()
    requires forall k :: 1 <= k <= 3 ==> Tolerable(env.wait(k).cap)
    requires Tolerable(env.cap)
    ensures CountWhere(Type(s, loc, text, timeout, clearFirst, env).trace, LogsType) == 1
  {
    TypeNeverFoundCount(s, loc, text, timeout, clearFirst, env, LogsType);
  }

  /** The count, by any property the wrappers' own events lack, of a `type` call
      whose element never appears: per attempt, the presence waits and the capture of
      one `wait_for` call; then the capture of `type` itself. */
  lemma TypeNeverFoundCount(s: Session, loc: Locator, text: string, timeout: Option<int>, clearFirst: bool, env: TypeEnv, p: Event -> bool)
    requires forall k, j :: 1 <= k <= 3 && 1 <= j <= 3 ==> env.wait(k).found(j).Err? && env.wait(k).found(j).exc.IsException()
    requires forall k :: 1 <= k <= 3 ==> Tolerable(env.wait(k).cap)
    requires Tolerable(env.cap)
    requires !p(Call("wait_for")) && !p(Sleep("wait_for", 1500)) && forall k: int :: !p(AttemptFailed("wait_for", k, 3))
    requires !p(Call("type")) && !p(Sleep("type", 1500)) && forall k: int :: !p(AttemptFailed("type", k, 3))
    requires forall e: Event :: (e.MakeDirs? || e.Screenshot? || e.HtmlDump?) ==> !p(e)
    ensures Type(s, loc, text, timeout, clearFirst, env).outcome == Err(env.wait(3).found(3).exc)
    ensures CountWhere(Type(s, loc, text, timeout, clearFirst, env).trace, p)
         == 3 * (3 * (if p(Poll(loc.strategy, loc.selector, EffectiveTimeout(timeout, s.explicitTimeout))) then 1 else 0) + (if p(LogException("wait_for")) then 1 else 0)) + (if p(LogException("type")) then 1 else 0)
  {
    var t := EffectiveTimeout(timeout, s.explicitTimeout);
    FallbackIsStable(timeout, s.explicitTimeout);
    var body := TypeAttempt(s, loc, text, t, clearFirst, env);
    var c := 3 * (if p(Poll(loc.strategy, loc.selector, t)) then 1 else 0) + (if p(LogException("wait_for")) then 1 else 0);
    TypeAttemptsNeverFound(s, loc, text, t, clearFirst, env, p);
    ExhaustedCount("type", 3, 1500, body, env.cap, p, c);
  }

  /** Every type attempt meets a `wait_for` that never finds the element. */
  lemma TypeAttemptsNeverFound(s: Session, loc: Locator, text: string, t: int, clearFirst: bool, env: TypeEnv, p: Event -> bool)
    requires forall k, j :: 1 <= k <= 3 && 1 <= j <= 3 ==> env.wait(k).found(j).Err? && env.wait(k).found(j).exc.IsException()
    requires forall k :: 1 <= k <= 3 ==> Tolerable(env.wait(k).cap)
    requires !p(Call("wait_for")) && !p(Sleep("wait_for", 1500)) && forall k: int :: !p(AttemptFailed("wait_for", k, 3))
    requires forall e: Event :: (e.MakeDirs? || e.Screenshot? || e.HtmlDump?) ==> !p(e)
    ensures forall k :: 1 <= k <= 3 ==> FailsWithException(TypeAttempt(s, loc, text, t, clearFirst, env)(k))
    ensures forall k :: 1 <= k <= 3 ==> TypeAttempt(s, loc, text, t, clearFirst, env)(k).outcome == Err(env.wait(k).found(3).exc)
    ensures forall k :: 1 <= k <= 3 ==> CountWhere(TypeAttempt(s, loc, text, t, clearFirst, env)(k).trace, p) == 3 * (if p(Poll(loc.strategy, loc.selector, EffectiveTimeout(Some(t), s.explicitTimeout))) then 1 else 0) + (if p(LogException("wait_for")) then 1 else 0)
  {
    forall k | 1 <= k <= 3
      ensures FailsWithException(TypeAttempt(s, loc, text, t, clearFirst, env)(k))
      ensures TypeAttempt(s, loc, text, t, clearFirst, env)(k).outcome == Err(env.wait(k).found(3).exc)
      ensures CountWhere(TypeAttempt(s, loc, text, t, clearFirst, env)(k).trace, p) == 3 * (if p(Poll(loc.strategy, loc.selector, EffectiveTimeout(Some(t), s.explicitTimeout))) then 1 else 0) + (if p(LogException("wait_for")) then 1 else 0)
    {
      WaitNeverFoundCount(s, loc, Some(t), env.wait(k), p);
    }
  }

  /** `get_text(selector, by, timeout)`: capture only, no retry of its own; the text is
      `element.text` (or the exception reading it raises), not stripped. */
  function GetText(s: Session, loc: Locator, timeout: Option<int>, wait: WaitEnv, text: Outcome<string>, cap: CaptureEnv): Run<string>
  {
    var w := WaitFor(s, loc, Some(EffectiveTimeout(timeout, s.explicitTimeout)), wait);
    Capture("get_text", if w.outcome.Err? then Propagate(w) else Run(text, w.trace + [ReadText(w.outcome.value)]), cap)
  }

  /** When it returns, `get_text` returns the element's text exactly as the driver gave
      it, read from the element `wait_for` found. */
  lemma GetTextUnchanged(s: Session, loc: Locator, timeout: Option<int>, wait: WaitEnv, text: Outcome<string>, cap: CaptureEnv)
    ensures GetText(s, loc, timeout, wait, text, cap).outcome.Ok?
        ==> GetText(s, loc, timeout, wait, text, cap).outcome == text
            && WaitFor(s, loc, Some(EffectiveTimeout(timeout, s.explicitTimeout)), wait).outcome.Ok?
    ensures WaitFor(s, loc, Some(EffectiveTimeout(timeout, s.explicitTimeout)), wait).outcome.Ok? && text.Ok?
        ==> GetText(s, loc, timeout, wait, text, cap).outcome == text
  {
  }

  /** What one `extract_table` call meets, per attempt: the nested `wait_for`, and the
      table's rows as the driver reads them (or the exception reading raises). */
  datatype TableEnv = TableEnv(wait: nat -> WaitEnv, rows: nat -> Outcome<seq<Row>>, cap: CaptureEnv)

  /** The body of `extract_table`: `wait_for` with no timeout, read the rows, transform. */
  function ExtractAttempt(s: Session, loc: Locator, header: bool, env: TableEnv): nat -> Run<seq<Record>>
  {
    (k: nat) =>
      var w := WaitFor(s, loc, None, env.wait(k));
      if w.outcome.Err? then Propagate(w)
      else
        var read := w.trace + [FindRows(w.outcome.value)];
        match env.rows(k)
        case Err(e) => Run(Err(e), read)
        case Ok(rows) => Run(Ok(ExtractTable(rows, header)), read)
  }

  /** `extract_table(table_selector, by, header)`: capture outside, two attempts 2 s apart. */
  function ExtractTableOp(s: Session, loc: Locator, header: bool, env: TableEnv): Run<seq<Record>>
  {
    Capture("extract_table", Retry(2, 2000, "extract_table", ExtractAttempt(s, loc, header, env)), env.cap)
  }

  /** Whatever list of dicts `extract_table` returns is the transform of the rows one
      of its two attempts read. */
  lemma ExtractTableResult(s: Session, loc: Locator, header: bool, env: TableEnv)
    ensures ExtractTableOp(s, loc, header, env).outcome.Ok?
        ==> exists k :: 1 <= k <= 2 && env.rows(k).Ok?
                        && ExtractTableOp(s, loc, header, env).outcome.value == ExtractTable(env.rows(k).value, header)
  {
    var body := ExtractAttempt(s, loc, header, env);
    var inner := Retry(2, 2000, "extract_table", body);
    var outer := Capture("extract_table", inner, env.cap);
    assert outer == ExtractTableOp(s, loc, header, env);
    RetryOutcomeFromAttempt(2, 2000, "extract_table", body);
    var k :| 1 <= k <= 2 && inner.outcome == body(k).outcome;
    if outer.outcome.Ok? {
      assert inner.outcome == outer.outcome;
      ExtractAttemptValue(s, loc, header, env, k);
    }
  }

  /** The table never appears: two `extract_table` attempts run three `wait_for`
      attempts each, six presence waits in all; no rows are read, and the last wait's
      exception is what `extract_table` raises. */
  lemma ExtractTableNeverFound(s: Session, loc: Locator, header: bool, env: TableEnv)
    requires forall k, j :: 1 <= k <= 2 && 1 <= j <= 3 ==> env.wait(k).found(j).Err? && env.wait(k).found(j).exc.IsException()
    requires forall k :: 1 <= k <= 2 ==> Tolerable(env.wait(k).cap)
    requires Tolerable(env.cap)
    ensures ExtractTableOp(s, loc, header, env).outcome == Err(env.wait(2).found(3).exc)
    ensures CountWhere(ExtractTableOp(s, loc, header, env).trace, IsPoll) == 6
  {
    ExtractTableNeverFoundCount(s, loc, header, env, IsPoll);
  }

  /** With the table never appearing, `extract_table` never reads its rows. */
  lemma ExtractTableNeverFoundReadsNothing(s: Session, loc: Locator, header: bool, env: TableEnv)
    requires forall k, j :: 1 <= k <= 2 && 1 <= j <= 3 ==> env.wait(k).found(j).Err? && env.wait(k).found(j).exc.IsException()
    requires forall k :: 1 <= k <= 2 ==> Tolerable(env.wait(k).cap)
    requires Tolerable(env.cap)
    ensures CountWhere(ExtractTableOp(s, loc, header, env).trace, IsFindRows) == 0
  {
    ExtractTableNeverFoundCount(s, loc, header, env, IsFindRows);
  }

  /** With the table never appearing, each of the two `wait_for` calls captures evidence once. */
  lemma ExtractTableNeverFoundWaitCaptures(s: Session, loc: Locator, header: bool, env: TableEnv)
    requires forall k, j :: 1 <= k <= 2 && 1 <= j <= 3 ==> env.wait(k).found(j).Err? && env.wait(k).found(j).exc.IsException()
    requires forall k :: 1 <= k <= 2 ==> Tolerable(env.wait(k).cap)
    requires Tolerable(env.cap)
    ensures CountWhere(ExtractTableOp(s, loc, header, env).trace, LogsWaitFor) == 2
  {
    ExtractTableNeverFoundCount(s, loc, header, env, LogsWaitFor);
  }

  /** With the table never appearing, `extract_table` captures evidence once, after its last attempt. */
  lemma ExtractTableNeverFoundOwnCapture(s: Session, loc: Locator, header: bool, env: TableEnv)
    requires forall k, j :: 1 <= k <= 2 && 1 <= j <= 3 ==> env.wait(k).found(j).Err? && env.wait(k).found(j).exc.IsException()
    requires forall k :: 1 <= k <= 2 ==> Tolerable(env.wait(k).cap)
    requires Tolerable(env.cap)
    ensures CountWhere(ExtractTableOp(s, loc, header, env).trace, LogsExtract) == 1
  {
    ExtractTableNeverFoundCount(s, loc, header, env, LogsExtract);
  }

  /** The count, by any property the wrappers' own events lack, of a `extract_table` call
      whose element never appears: per attempt, the presence waits and the capture of
      one `wait_for` call; then the capture of `extract_table` itself. */
  lemma ExtractTableNeverFoundCount(s: Session, loc: Locator, header: bool, env: TableEnv, p: Event -> bool)
    requires forall k, j :: 1 <= k <= 2 && 1 <= j <= 3 ==> env.wait(k).found(j).Err? && env.wait(k).found(j).exc.IsException()
    requires forall k :: 1 <= k <= 2 ==> Tolerable(env.wait(k).cap)
    requires Tolerable(env.cap)
    requires !p(Call("wait_for")) && !p(Sleep("wait_for", 1500)) && forall k: int :: !p(AttemptFailed("wait_for", k, 3))
    requires !p(Call("extract_table")) && !p(Sleep("extract_table", 2000)) && forall k: int :: !p(AttemptFailed("extract_table", k, 2))
    requires forall e: Event :: (e.MakeDirs? || e.Screenshot? || e.HtmlDump?) ==> !p(e)
    ensures ExtractTableOp(s, loc, header, env).outcome == Err(env.wait(2).found(3).exc)
    ensures CountWhere(ExtractTableOp(s, loc, header, env).trace, p)
         == 2 * (3 * (if p(Poll(loc.strategy, loc.selector, s.explicitTimeout)) then 1 else 0) + (if p(LogException("wait_for")) then 1 else 0)) + (if p(LogException("extract_table")) then 1 else 0)
  {
    var body := ExtractAttempt(s, loc, header, env);
    var c := 3 * (if p(Poll(loc.strategy, loc.selector, s.explicitTimeout)) then 1 else 0) + (if p(LogException("wait_for")) then 1 else 0);
    ExtractAttemptsNeverFound(s, loc, header, env, p);
    ExhaustedCount("extract_table", 2, 2000, body, env.cap, p, c);
  }

  /** Every extract attempt meets a `wait_for` that never finds the table. */
  lemma ExtractAttemptsNeverFound(s: Session, loc: Locator, header: bool, env: TableEnv, p: Event -> bool)
    requires forall k, j :: 1 <= k <= 2 && 1 <= j <= 3 ==> env.wait(k).found(j).Err? && env.wait(k).found(j).exc.IsException()
    requires forall k :: 1 <= k <= 2 ==> Tolerable(env.wait(k).cap)
    requires !p(Call("wait_for")) && !p(Sleep("wait_for", 1500)) && forall k: int :: !p(AttemptFailed("wait_for", k, 3))
    requires forall e: Event :: (e.MakeDirs? || e.Screenshot? || e.HtmlDump?) ==> !p(e)
    ensures forall k :: 1 <= k <= 2 ==> FailsWithException(ExtractAttempt(s, loc, header, env)(k))
    ensures forall k :: 1 <= k <= 2 ==> ExtractAttempt(s, loc, header, env)(k).outcome == Err(env.wait(k).found(3).exc)
    ensures forall k :: 1 <= k <= 2 ==> CountWhere(ExtractAttempt(s, loc, header, env)(k).trace, p) == 3 * (if p(Poll(loc.strategy, loc.selector, EffectiveTimeout(None, s.explicitTimeout))) then 1 else 0) + (if p(LogException("wait_for")) then 1 else 0)
  {
    forall k | 1 <= k <= 2
      ensures FailsWithException(ExtractAttempt(s, loc, header, env)(k))
      ensures ExtractAttempt(s, loc, header, env)(k).outcome == Err(env.wait(k).found(3).exc)
      ensures CountWhere(ExtractAttempt(s, loc, header, env)(k).trace, p) == 3 * (if p(Poll(loc.strategy, loc.selector, EffectiveTimeout(None, s.explicitTimeout))) then 1 else 0) + (if p(LogException("wait_for")) then 1 else 0)
    {
      WaitNeverFoundCount(s, loc, None, env.wait(k), p);
    }
  }

  /** An attempt that returns has read the rows and returns their transform. */
  lemma ExtractAttemptValue(s: Session, loc: Locator, header: bool, env: TableEnv, k: nat)
    ensures ExtractAttempt(s, loc, header, env)(k).outcome.Ok?
        ==> env.rows(k).Ok? && ExtractAttempt(s, loc, header, env)(k).outcome.value == ExtractTable(env.rows(k).value, header)
  {
  }

  // ---------------------------------------------------------------------------
  // quit
  // ---------------------------------------------------------------------------

  /** `quit()`: `driver.quit()`, whose Exception is caught and only logged. */
  function Quit(quitRaises: Option<Exc>): (r: Run<()>)
    ensures r.trace == [QuitDriver]
    ensures r.outcome.Err? ==> !r.outcome.exc.IsException() && quitRaises == Some(r.outcome.exc)
    ensures quitRaises.None? || quitRaises.value.IsException() ==> r.outcome == Ok(())
  {
    if quitRaises.Some? && !quitRaises.value.IsException() then Run(Err(quitRaises.value), [QuitDriver])
    else Run(Ok(()), [QuitDriver])
  }
}
