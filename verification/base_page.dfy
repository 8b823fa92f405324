/** `BasePage` (core/base_page.py): the page-object base class. A page holds a
    `Browser` and delegates to it; the class attribute `URL` is the page's own
    address, or None. Locators are `(by, selector)` pairs. */
module BasePage {
  import opened Outcomes
  import opened Decorators
  import opened BrowserManager

  /** What is handed to `BasePage(browser)`: a `Browser`, or any other object. */
  datatype Obj = BrowserObj(session: Session) | OtherObj(typeName: string)

  datatype Page = Page(browser: Session, url: Option<string>)

  /** The default `timeout` of `click`, `type`, `text` and `wait_for`. */
  const DefaultTimeout: int := 10

  /** `BasePage.__init__(browser)` for a page class whose `URL` is `url`. */
  function NewPage(o: Obj, url: Option<string>): (r: Outcome<Page>)
    ensures r.Ok? <==> o.BrowserObj?
    ensures r.Ok? ==> r.value.browser == o.session && r.value.url == url
    ensures r.Err? ==> r.exc == NotABrowser
  {
    if o.BrowserObj? then Ok(Page(o.session, url)) else Err(NotABrowser)
  }

  /** A string that Python's truth test accepts. */
  predicate Truthy(s: Option<string>)
  {
    s.Some? && s.value != ""
  }

  /** `go_to(url)`: the target is `url or self.URL`. */
  function PageGoTo(p: Page, url: Option<string>, nav: Option<Exc>): Run<()>
  {
    var target := if Truthy(url) then url else p.url;
    if !Truthy(target) then Run(Err(NoUrl), []) else GoTo(target.value, nav)
  }

  predicate IsNavigate(e: Event) { e.Navigate? }

  /** A truthy argument wins over `URL`; with neither, `ValueError` is raised before
      any browser call; otherwise the browser navigates exactly once. */
  lemma PageGoToTarget(p: Page, url: Option<string>, nav: Option<Exc>)
    ensures Truthy(url) ==> PageGoTo(p, url, nav).trace == [Navigate(url.value)]
    ensures !Truthy(url) && Truthy(p.url) ==> PageGoTo(p, url, nav).trace == [Navigate(p.url.value)]
    ensures !Truthy(url) && !Truthy(p.url) ==> PageGoTo(p, url, nav) == Run(Err(NoUrl), [])
    ensures CountWhere(PageGoTo(p, url, nav).trace, IsNavigate) == if Truthy(url) || Truthy(p.url) then 1 else 0
    ensures (Truthy(url) || Truthy(p.url)) ==> (PageGoTo(p, url, nav).outcome.Ok? <==> nav.None?)
  {
    var t := PageGoTo(p, url, nav).trace;
    if Truthy(url) || Truthy(p.url) {
      CountSingle(t[0], IsNavigate);
    }
  }

  /** `wait_for(locator, timeout)`. */
  function PageWaitFor(p: Page, loc: Locator, timeout: int, wait: WaitEnv): Run<nat>
  {
    WaitFor(p.browser, loc, Some(timeout), wait)
  }

  /** `click(locator, timeout)`: the browser's decorated `wait_for`, then
      `el.click()` once, raising `click` if that is present. */
  function PageClick(p: Page, loc: Locator, timeout: int, wait: WaitEnv, click: Option<Exc>): Run<()>
  {
    var w := PageWaitFor(p, loc, timeout, wait);
    if w.outcome.Err? then Propagate(w)
    else Run(if click.Some? then Err(click.value) else Ok(()), w.trace + [ClickElement(w.outcome.value)])
  }

  predicate IsClick(e: Event) { e.ClickElement? }

  /** Only the wait is retried: the element found is clicked exactly once, and a click
      that raises fails the call with that very exception, with no capture. */
  lemma PageClickOnce(p: Page, loc: Locator, timeout: int, wait: WaitEnv, click: Option<Exc>)
    requires PageWaitFor(p, loc, timeout, wait).outcome.Ok?
    ensures CountWhere(PageClick(p, loc, timeout, wait, click).trace, IsClick) == 1
    ensures PageClick(p, loc, timeout, wait, click).trace[|PageClick(p, loc, timeout, wait, click).trace| - 1]
         == ClickElement(PageWaitFor(p, loc, timeout, wait).outcome.value)
    ensures click.Some? ==> PageClick(p, loc, timeout, wait, click).outcome == Err(click.value)
    ensures click.None? ==> PageClick(p, loc, timeout, wait, click).outcome.Ok?
  {
    var w := PageWaitFor(p, loc, timeout, wait);
    PageWaitNoClick(p, loc, timeout, wait);
    CountWhereAppend(w.trace, [ClickElement(w.outcome.value)], IsClick);
    CountSingle(ClickElement(w.outcome.value), IsClick);
  }

  /** The browser's `wait_for` never clicks. */
  lemma PageWaitNoClick(p: Page, loc: Locator, timeout: int, wait: WaitEnv)
    ensures CountWhere(PageWaitFor(p, loc, timeout, wait).trace, IsClick) == 0
  {
    var q: Event -> bool := (e: Event) => !e.ClickElement?;
    WaitKeeps(p.browser, loc, Some(timeout), wait, q);
    NoneCounted(PageWaitFor(p, loc, timeout, wait).trace, IsClick);
  }

  lemma {:induction false} NoneCounted(t: seq<Event>, p: Event -> bool)
    requires forall j :: 0 <= j < |t| ==> !p(t[j])
    ensures CountWhere(t, p) == 0
  {
    if |t| > 0 {
      NoneCounted(t[1..], p);
    }
  }

  /** The locator is unpacked as `(by, selector)` and the timeout handed on as given:
      with the default timeout every presence wait is for that locator, 10 seconds. */
  lemma PageWaitForDelegates(p: Page, strategy: string, selector: string, wait: WaitEnv)
    ensures forall i :: 0 <= i < |PageWaitFor(p, Locator(strategy, selector), DefaultTimeout, wait).trace|
                        && PageWaitFor(p, Locator(strategy, selector), DefaultTimeout, wait).trace[i].Poll?
              ==> PageWaitFor(p, Locator(strategy, selector), DefaultTimeout, wait).trace[i] == Poll(strategy, selector, 10)
  {
    WaitPollsSameLocator(p.browser, Locator(strategy, selector), Some(DefaultTimeout), wait);
  }

  /** `type(locator, text, clear_first, timeout)`: `wait_for`, then `el.clear()` when
      `clear_first`, then `el.send_keys(text)`; `clear` and `send` are what those raise. */
  function PageType(p: Page, loc: Locator, text: string, clearFirst: bool, timeout: int, wait: WaitEnv,
                    clear: Option<Exc>, send: Option<Exc>): Run<()>
  {
    var w := PageWaitFor(p, loc, timeout, wait);
    if w.outcome.Err? then Propagate(w)
    else
      var el := w.outcome.value;
      var cleared := if clearFirst then w.trace + [ClearElement(el)] else w.trace;
      if clearFirst && clear.Some? then Run(Err(clear.value), cleared)
      else Run(if send.Some? then Err(send.value) else Ok(()), cleared + [SendKeys(el, text)])
  }

  /** Once the element is found and clearing succeeds, the text is sent last, and the
      field is cleared right before it if and only if `clear_first`. */
  lemma PageTypeClearsIff(p: Page, loc: Locator, text: string, clearFirst: bool, timeout: int, wait: WaitEnv,
                          clear: Option<Exc>, send: Option<Exc>)
    requires PageWaitFor(p, loc, timeout, wait).outcome.Ok?
    requires clear.None?
    ensures var tr := PageType(p, loc, text, clearFirst, timeout, wait, clear, send).trace;
            var el := PageWaitFor(p, loc, timeout, wait).outcome.value;
            |tr| >= 2 && tr[|tr| - 1] == SendKeys(el, text)
            && (clearFirst <==> tr[|tr| - 2] == ClearElement(el))
  {
    var w := PageWaitFor(p, loc, timeout, wait);
    WaitEndsWithPoll(p, loc, timeout, wait);
  }

  /** A successful wait ends with its presence wait. */
  lemma WaitEndsWithPoll(p: Page, loc: Locator, timeout: int, wait: WaitEnv)
    requires PageWaitFor(p, loc, timeout, wait).outcome.Ok?
    ensures |PageWaitFor(p, loc, timeout, wait).trace| >= 1
    ensures PageWaitFor(p, loc, timeout, wait).trace[|PageWaitFor(p, loc, timeout, wait).trace| - 1].Poll?
  {
    var t := EffectiveTimeout(Some(timeout), p.browser.explicitTimeout);
    var body := PollOnce(loc, t, wait.found);
    RetryOutcomeFromAttempt(3, 1500, "wait_for", body);
    var k :| 1 <= k <= 3 && Retry(3, 1500, "wait_for", body).outcome == body(k).outcome;
    var j := FirstStop(body, 1, k);
    RetryStopsAtFirstNonFailure(3, 1500, "wait_for", body, j);
  }

  /** `text(locator, timeout)`: `wait_for`, then `el.text` as it is. */
  function PageText(p: Page, loc: Locator, timeout: int, wait: WaitEnv, text: Outcome<string>): Run<string>
  {
    var w := PageWaitFor(p, loc, timeout, wait);
    if w.outcome.Err? then Propagate(w) else Run(text, w.trace + [ReadText(w.outcome.value)])
  }

  /** The text is returned with no trimming: a found element's text comes back as the
      driver gave it, surrounding whitespace included. */
  lemma PageTextUnchanged(p: Page, loc: Locator, timeout: int, wait: WaitEnv, text: Outcome<string>)
    requires PageWaitFor(p, loc, timeout, wait).outcome.Ok?
    ensures PageText(p, loc, timeout, wait, text).outcome == text
  {
  }
}
