/** Exceptions, outcomes and the observable event trace shared by every component
    of the browser wrapper. A Python call either returns a value or raises; the
    model writes that as `Outcome`, and pairs it with the trace of side effects the
    call performed (driver commands, sleeps, evidence files, logged captures). */
module Outcomes {

  datatype Option<+T> = None | Some(value: T)

  /** Error classes the Selenium driver, the file system or the operating system raise. */
  datatype DriverError = Timeout | StaleElement | ClickIntercepted | OSError | OtherDriverError

  /** A raised Python exception. `id` stands for object identity: two raises of the
      same class are different objects. */
  datatype Exc =
    | Raised(kind: DriverError, id: nat)   // raised by the driver, a file write or the OS
    | WindowClosed                         // NoSuchWindowException: the current window is gone
    | SessionEnded                         // InvalidSessionIdException: the last window was closed
    | TabIndexError(index: int)            // IndexError from switch_to_tab
    | UnsupportedBrowser(name: string)     // ValueError from _start_driver
    | NoUrl                                // ValueError from BasePage.go_to
    | NotABrowser                          // TypeError from BasePage.__init__
    | NoneRaised                           // the TypeError Python raises for `raise None`
    | Interrupt(id: nat)                   // a BaseException outside Exception (KeyboardInterrupt, SystemExit)
  {
    /** An `except Exception` clause catches it. */
    predicate IsException() { !Interrupt? }
  }

  datatype Outcome<+T> = Ok(value: T) | Err(exc: Exc)

  /** Side effects a call performs, in order. A driver command is recorded when it is
      sent, whether or not the driver then raises; reading `window_handles` or
      `current_window_handle` is not recorded. */
  datatype Event =
    | Call(op: string)                                 // a decorated function's body is entered
    | AttemptFailed(op: string, attempt: int, retries: int)   // the retry warning "Tentativa k/n falhou"
    | Sleep(op: string, millis: nat)                   // time.sleep(delay) between attempts
    | Poll(strategy: string, selector: string, timeout: int) // WebDriverWait(driver, timeout).until(presence)
    | ClickElement(element: nat)
    | ClearElement(element: nat)
    | SendKeys(element: nat, text: string)
    | ReadText(element: nat)
    | FindRows(element: nat)                           // table.find_elements(By.TAG_NAME, "tr")
    | Navigate(url: string)                            // driver.get(url)
    | OpenWindow                                       // execute_script("window.open('');")
    | SwitchTo(handle: nat)                            // driver.switch_to.window(handle)
    | CloseWindow(handle: nat)                         // driver.close()
    | QuitDriver                                       // driver.quit()
    | MakeDirs(folder: string, ok: bool)               // os.makedirs(folder, exist_ok=True)
    | Screenshot(path: string, ok: bool)               // driver.save_screenshot(path); ok: it did not raise
    | HtmlDump(path: string, ok: bool)                 // page_source written to path; ok: it did not raise
    | LogException(op: string)                         // logger.exception after a capture
    | Elapsed(op: string)                              // time_it's elapsed-time log line

  /** What one call produced: its outcome and the side effects it performed. */
  datatype Run<+T> = Run(outcome: Outcome<T>, trace: seq<Event>)

  /** Re-types a failed run (a raise propagates whatever the caller meant to return). */
  function Propagate<T, U>(r: Run<T>): (p: Run<U>)
    requires r.outcome.Err?
    ensures p.outcome == Err(r.outcome.exc) && p.trace == r.trace
  {
    Run(Err(r.outcome.exc), r.trace)
  }

  /** Number of events in `trace` satisfying `p`. */
  function CountWhere(trace: seq<Event>, p: Event -> bool): nat
  {
    if |trace| == 0 then 0
    else (if p(trace[0]) then 1 else 0) + CountWhere(trace[1..], p)
  }

  lemma {:induction false} CountWhereAppend(a: seq<Event>, b: seq<Event>, p: Event -> bool)
    ensures CountWhere(a + b, p) == CountWhere(a, p) + CountWhere(b, p)
  {
    if |a| == 0 {
      assert a + b == b;
    } else {
      assert (a + b)[0] == a[0];
      assert (a + b)[1..] == a[1..] + b;
      CountWhereAppend(a[1..], b, p);
    }
  }

  lemma CountSingle(e: Event, p: Event -> bool)
    ensures CountWhere([e], p) == if p(e) then 1 else 0
  {
    assert [e][1..] == [];
  }

  /** Paths of the evidence files whose write did not raise, in order. */
  function Artifacts(trace: seq<Event>): seq<string>
  {
    if |trace| == 0 then []
    else
      var e := trace[0];
      var here := if (e.Screenshot? || e.HtmlDump?) && e.ok then [e.path] else [];
      here + Artifacts(trace[1..])
  }

  lemma {:induction false} ArtifactsAppend(a: seq<Event>, b: seq<Event>)
    ensures Artifacts(a + b) == Artifacts(a) + Artifacts(b)
  {
    if |a| == 0 {
      assert a + b == b;
    } else {
      assert (a + b)[0] == a[0];
      assert (a + b)[1..] == a[1..] + b;
      ArtifactsAppend(a[1..], b);
    }
  }
}
