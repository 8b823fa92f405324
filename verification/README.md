# Browser-automation wrapper: decorators, evidence capture, tabs, tables, configuration

A Dafny model of the core of `web_automation_framework`, a Python wrapper around a
Selenium WebDriver. The model covers five pieces:

- the retry decorator `retry_on_fail` and the transparent `time_it`;
- the failure-evidence decorator `capture_failures`, with its file names;
- the facade `Browser`. This covers the decorated `wait_for`, `click`, `type`, `get_text`
  and `extract_table`, and how their decorators nest. It also covers the tab methods,
  the timeout fallback, the browser-kind check and `quit`;
- the page-object base `BasePage`;
- `ConfigManager`'s merge, cache and lookup.

The model is functional. A Python call that returns a value or raises is written
`Outcome<T>` (`Ok(v)` or `Err(exc)`). The model pairs it with the trace of side effects
the call performed, as `Run<T>`. Those effects are:

- driver commands;
- sleeps, as events carrying the delay in milliseconds;
- evidence-file writes;
- logged captures.

Everything outside the program is a parameter:

- what the driver answers;
- what the file system raises;
- the clock reading of a capture;
- the configuration sources.

A decorated function is a function from the attempt number to what that attempt does.
So the retry loop, the capture and their nesting are ordinary Dafny functions.

Modules, one per component:

| module | file | models |
|---|---|---|
| `Outcomes` | outcomes.dfy | exceptions (`Exc`), `Outcome`, trace events, counting over traces |
| `Decimal` | decimal.dfy | `str(n)` and the two-digit strftime fields, with injectivity |
| `Decorators` | decorators.dfy | utils/decorators.py |
| `ErrorHandler` | error_handler.dfy | utils/error_handler.py, `time.strftime` stamps |
| `Table` | table.dfy | the pure transform inside `extract_table`, `str.strip`, dicts |
| `Tabs` | tabs.dfy | the tab methods of core/browser_manager.py |
| `BrowserManager` | browser_manager.dfy | the rest of core/browser_manager.py that is modelled |
| `BasePage` | base_page.dfy | core/base_page.py |
| `ConfigManager` | config_manager.dfy | core/config_manager.py |

Exceptions:

- `Exc.IsException()` is false only for `Interrupt`, a `BaseException` outside
  `Exception` such as `KeyboardInterrupt`. This is what every `except Exception` in
  the source lets through.
- Exception objects carry an identity (`id`), so "the very same exception is
  re-raised" is an equality of values.
- `raise None` raises `TypeError`, written `NoneRaised`.
- Closing the last window ends the driver session (the Close Window command of the
  W3C WebDriver specification). The `tabs_count()` guard in `close_tab` then raises
  `InvalidSessionIdException`, written `SessionEnded`, instead of reading 0. A window
  state with no handle is that ended session, and every tab operation on it raises
  `SessionEnded`.
- Tab traces record each command sent to the driver (open, switch, close) even when
  the driver rejects it, as `go_to` records a navigation that raises.

Where one might expect otherwise, the code does the following, and so does the model:

- `click` retries on every `Exception`, not only on intercepted or stale clicks.
- `get_text` and `BasePage.text` return the element text untrimmed.
- `ConfigManager.get` returns the raw stored value when `cast` fails, not `default`.
- Evidence is captured once per decorated call that fails, after its retries, not once
  per failed attempt. A nested `wait_for` captures on each of its own failing calls.

## Model

| member | source | states |
|---|---|---|
| `Decorators.Retry` | utils/decorators.py:20-34 | with `retries < 1` the function is never called and the wrapper raises `TypeError` (from `raise None`); otherwise the first thing it does is call the function |
| `Decorators.RetryFrom` | utils/decorators.py:23-34 | the attempt loop from a given attempt on; what it does is stated by `Decorators.RetryStopsAtFirstNonFailure`, `Decorators.RetryExhausted` and `Decorators.RetryOutcomeFromAttempt` |
| `Decorators.FirstStop` | utils/decorators.py:25-27 | the first attempt that returns is found: every earlier attempt raised an Exception, so the loop reaches it |
| `Decorators.RetryStopsAtFirstNonFailure` | utils/decorators.py:25-31 | if attempts 1..k-1 raise Exceptions and attempt k does not, the wrapper ends with attempt k's outcome. Its trace is exactly k-1 failed attempts (call, warning, sleep each), then the k-th call, and nothing after |
| `Decorators.RetryCountsOnStop` | utils/decorators.py:25-31 | in that case the function is called exactly k times and the wrapper sleeps exactly k-1 times |
| `Decorators.RetryExhausted` | utils/decorators.py:25-32 | if all attempts raise Exceptions, the function is called `retries` times and a sleep follows every failure, the last one included. The exception raised is the final attempt's own object. Any `Exception` qualifies; there is no filter by type |
| `Decorators.RetryFirstSucceeds` | utils/decorators.py:24-27 | a first attempt that does not raise is the only call, and its outcome is the wrapper's |
| `Decorators.RetryStopCount` | utils/decorators.py:25-31 | when attempt k is the first that does not raise, an event kind the wrapper itself never emits occurs k-1 times the per-failure count plus attempt k's count |
| `Decorators.RetryExhaustedCount` | utils/decorators.py:25-32 | when every attempt raises, such an event kind occurs `retries` times the per-attempt count |
| `Decorators.RetryOutcomeFromAttempt` | utils/decorators.py:24-32 | the wrapper's result, value or exception, is always one that some attempt produced |
| `Decorators.RetryKeeps` | utils/decorators.py:23-31 | every attempt is the same call: a property that holds of all of the attempts' events and of the wrapper's own events holds of the whole trace |
| `Decorators.TimeIt` | utils/decorators.py:8-17 | `time_it` passes the value or exception through unchanged and only appends its elapsed-time line; it writes no evidence |
| `ErrorHandler.Capture` | utils/error_handler.py:9-50 | on success the wrapped run comes back untouched, with no evidence written. A `BaseException` outside `Exception` passes through too. When folder creation and both writes are survivable, the original outcome is re-raised. The wrapped trace is always kept as a prefix, and everything after it is a folder, evidence-file or log event |
| `ErrorHandler.CaptureOnFailure` | utils/error_handler.py:17-48 | on an Exception the folder is made, the screenshot and the HTML dump are both attempted whatever the first one did, and the exception is logged. The evidence list grows by exactly the files whose write did not raise, and the same exception object is raised again |
| `ErrorHandler.CaptureFolderFailureEscapes` | utils/error_handler.py:20-21 | `os.makedirs` is unguarded: its exception replaces the original one, and the evidence list does not grow |
| `ErrorHandler.StampIdentifiesSecond` | utils/error_handler.py:18 | the `%Y-%m-%d_%H-%M-%S` stamp has one-second resolution: two instants get the same stamp if and only if they fall in the same second |
| `ErrorHandler.BaseNameUnique` | utils/error_handler.py:24 | `f"{timestamp}_{method}"` determines both the second and the method name |
| `ErrorHandler.ArtifactPathsCollideIff` | utils/error_handler.py:18-26 | two captures use the same `logs/errors/<stamp>_<name>.png` (and the same `.html`) path if and only if they happen in the same second for the same method name |
| `ErrorHandler.CaptureKeeps` | utils/error_handler.py:17-48 | a capture adds only folder, file and log events, so it never adds a driver command |
| `ErrorHandler.CaptureEventsCount` | utils/error_handler.py:21-45 | a survivable capture logs the exception exactly once for the method it wraps |
| `ErrorHandler.Stamp` | utils/error_handler.py:18 | `time.strftime("%Y-%m-%d_%H-%M-%S")`; its meaning is stated by `ErrorHandler.StampIdentifiesSecond` and `ErrorHandler.BaseNameUnique` |
| `Table.StripSpec` | core/browser_manager.py:354 | `s.strip()` is the slice of `s` between its leading and trailing Unicode whitespace; it starts and ends with non-whitespace, and only whitespace lies outside it |
| `Table.StripIdempotent` | core/browser_manager.py:367 | stripping a stripped cell text changes nothing |
| `Table.Strip` | core/browser_manager.py:354 | `str.strip()`; its contract is `Table.StripSpec` and `Table.StripIdempotent` |
| `Table.PutLookup` | core/browser_manager.py:368-371 | after `d[k] = v`, `k` maps to `v` and every other key keeps its value |
| `Table.PutKeys` | core/browser_manager.py:368-371 | assigning an existing key keeps its position; a new key is appended after the others |
| `Table.RowLookup` | core/browser_manager.py:367-371 | in a row dict, a key no cell maps to is absent, and a key holds the stripped text of the last cell with that key, so a later duplicate overwrites an earlier one |
| `Table.RowPrefixDistinct` | core/browser_manager.py:368-371 | with pairwise different keys, the row dict lists cell i's key and text at position i |
| `Table.BuildRow` | core/browser_manager.py:367-371 | the `row_dict` loop; its contract is `Table.RowLookup` and `Table.RowPrefixDistinct` |
| `Table.ColNameInjective` | core/browser_manager.py:358 | different column indices give different `col_i` names |
| `Table.ExtractRows` | core/browser_manager.py:363-372 | the data loop yields at most one dict per data row |
| `Table.ExtractRowsIsKept` | core/browser_manager.py:363-372 | rows without `td` are skipped, and output dict k is built from the k-th row that has `td` cells, in source order |
| `Table.KeptAppend` | core/browser_manager.py:363-366 | skipping distributes over concatenation, so kept rows keep their relative order |
| `Table.SplitHeader` | core/browser_manager.py:351-361 | the header decision; stated by `Table.HeaderRowNamesColumns`, `Table.NoHeaderRowSameAsNoHeader` and `Table.NoHeaderColumnsAreOrdinal` |
| `Table.ExtractTable` | core/browser_manager.py:351-372 | the transform of the rows `extract_table` reads; stated by `Table.ExtractRowsIsKept`, `Table.HeaderRowNamesColumns`, `Table.NoHeaderColumnsAreOrdinal` and `Table.HeaderedTableIsRectangular` |
| `Table.HeaderRowNamesColumns` | core/browser_manager.py:351-355 | with `header` and a first row of `th` cells, the stripped `th` texts name the columns and that row is excluded from the data |
| `Table.NoHeaderRowSameAsNoHeader` | core/browser_manager.py:351-361 | when the first row has no `th`, asking for a header gives exactly the output of `header=False` |
| `Table.NoHeaderColumnsAreOrdinal` | core/browser_manager.py:361-371 | without a header every output dict maps `col_i` to the stripped text of cell i, in cell order |
| `Table.HeaderedTableIsRectangular` | core/browser_manager.py:351-372 | with k distinct header names over data rows of k cells, there is one dict per data row, holding exactly the header columns in order |
| `Tabs.SwitchToTab` | core/browser_manager.py:132-140 | a valid index focuses `handles[index]` with one switch command. In an ended session reading the handle list raises `SessionEnded`; otherwise an index outside `[0, len)` raises `IndexError`. Either way there is no switch, the focus is unchanged and the capture is applied |
| `Tabs.SwitchThenCurrent` | core/browser_manager.py:132-144 | with distinct handles, switching to index i makes `current_tab()` answer i |
| `Tabs.CurrentTab` | core/browser_manager.py:142-144 | `current_tab()` is the position of the focused handle. It raises `NoSuchWindowException` once that window is closed, and `SessionEnded` once the session has ended |
| `Tabs.TabsCount` | core/browser_manager.py:129-130 | the number of open windows; in an ended session reading the handle list raises `SessionEnded`. `Tabs.NewTab` and `Tabs.CloseTab` use it for the index of the last window |
| `Tabs.NewTab` | core/browser_manager.py:121-127 | the window-opening script raises `SessionEnded` in an ended session and `NoSuchWindowException` when the focused window is closed, and then no window opens and nothing else changes. From a live focus a new handle is appended and focused. The URL is loaded if and only if the focus was live and the URL is truthy, and the call fails if and only if the focus was not live or that load raises |
| `Tabs.NewTabIsLast` | core/browser_manager.py:121-130 | from a live focus, after `new_tab` the handles stay distinct and `current_tab()` is the last index |
| `Tabs.CloseTab` | core/browser_manager.py:146-151 | `close_tab` removes the focused handle and focuses the last remaining one; closing the last window ends the session, so the `tabs_count()` guard raises `SessionEnded` after the close. On an already closed window the close raises `WindowClosed`, and in an ended session it raises `SessionEnded`; both leave the windows unchanged |
| `Tabs.ClosingLastTabEndsSession` | core/browser_manager.py:121-151 | closing the only window raises `SessionEnded`, and afterwards `tabs_count`, `current_tab`, `switch_to_tab`, `new_tab` and `close_tab` all raise `SessionEnded` |
| `Tabs.CloseTabRemovesCurrent` | core/browser_manager.py:146-151 | exactly that handle disappears, the others keep their order and stay distinct, and `current_tab()` is the last index |
| `Tabs.CloseAllOtherTabs` | core/browser_manager.py:153-165 | every other window is focused and closed in list order, then the original one is focused again. Only the originally focused handle is left, and it is focused. When that window is closed the call raises `WindowClosed`, in an ended session `SessionEnded`, before anything is closed |
| `BrowserManager.Lower` | core/browser_manager.py:45 | lower-casing keeps the length, maps every ASCII capital to its small letter (code + 32), and changes nothing else |
| `BrowserManager.SelectBrowserAccepts` | core/browser_manager.py:45-95 | the driver starts only for "chrome" or "firefox": a given name in any letter case, or a configured name (used when the argument is empty) in exactly that spelling. Anything else raises `ValueError` naming it |
| `BrowserManager.SelectBrowserCaseInsensitive` | core/browser_manager.py:45 | lower-casing the argument beforehand changes nothing |
| `BrowserManager.ConfiguredNameIsNotLowered` | core/browser_manager.py:45 | `"FireFox"` as argument starts Firefox, while a configured `"Chrome"` is rejected |
| `BrowserManager.BrowserName` | core/browser_manager.py:45 | `browser.lower() or cfg.get("BROWSER", "chrome")`; stated by `BrowserManager.SelectBrowserAccepts` |
| `BrowserManager.SelectBrowser` | core/browser_manager.py:62-95 | the closed choice of `_start_driver`; stated by `BrowserManager.SelectBrowserAccepts` and `BrowserManager.SelectBrowserCaseInsensitive` |
| `BrowserManager.EffectiveTimeout` | core/browser_manager.py:108 | `timeout or self.explicit_timeout`: a non-zero given timeout is used, and None or 0 falls back |
| `BrowserManager.FallbackIsStable` | core/browser_manager.py:195-196 | `click`, `type` and `get_text` resolve `timeout or self.explicit_timeout` and hand the result to `wait_for`, which resolves it again; the wait is as long as a direct `wait_for` call would make it |
| `BrowserManager.Start` | core/browser_manager.py:33-57 | a session exists only for a supported kind, and its timeout is the given one or the configured fallback |
| `BrowserManager.GoTo` | core/browser_manager.py:100-102 | one navigation command to the URL, failing exactly when the driver raises |
| `BrowserManager.WaitFor` | core/browser_manager.py:104-116 | `wait_for`, capture over three attempts 1.5 s apart; stated by `BrowserManager.WaitFoundOnAttempt`, `BrowserManager.WaitFirstHit`, `BrowserManager.WaitNeverFoundCount` and `BrowserManager.WaitPollsSameLocator` |
| `BrowserManager.WaitFirstHit` | core/browser_manager.py:104-113 | an element present at the first presence wait is returned after one call and one wait |
| `BrowserManager.WaitFoundOnAttempt` | core/browser_manager.py:104-116 | an element present at the k-th presence wait is returned after exactly k waits, with no evidence |
| `BrowserManager.WaitNeverFoundCount` | core/browser_manager.py:104-116 | an element never present gives three waits and one `wait_for` capture, and the last wait's exception is raised |
| `BrowserManager.WaitPollsSameLocator` | core/browser_manager.py:104-111 | every presence wait of a `wait_for` call is for its locator with the resolved timeout |
| `BrowserManager.Click` | core/browser_manager.py:191-202 | `click`, capture over three attempts 2 s apart, each with a nested `wait_for`; stated by the `BrowserManager.ClickNeverFound` group, `BrowserManager.ClickPollsSameLocator` and `BrowserManager.ClickRetriesAnyException` |
| `BrowserManager.ClickNeverFound` | core/browser_manager.py:191-202 | a locator that never appears gives 3 click attempts of 3 waits each, nine presence waits, and the last wait's exception propagates |
| `BrowserManager.ClickNeverFoundWaitCaptures` | core/browser_manager.py:191-202 | in that case each of the three nested `wait_for` calls captures evidence once |
| `BrowserManager.ClickNeverFoundOwnCapture` | core/browser_manager.py:191-202 | in that case `click` itself captures evidence exactly once |
| `BrowserManager.ClickNeverFoundCount` | core/browser_manager.py:191-202 | the general count behind those: by any event kind the wrappers never emit, 3 × (3 × presence wait + `wait_for` capture) + `click` capture |
| `BrowserManager.ClickPollsSameLocator` | core/browser_manager.py:191-196 | every presence wait across all click attempts and nested retries uses the same locator and timeout |
| `BrowserManager.ClickRetriesAnyException` | core/browser_manager.py:191-202 | a first click attempt failing with any Exception, a wait timeout included, is retried; a good second attempt makes the click succeed with no `click` capture |
| `BrowserManager.Type` | core/browser_manager.py:204-224 | `type`, capture over three attempts 1.5 s apart; stated by `BrowserManager.TypeFirstAttempt` and the `BrowserManager.TypeNeverFound` group |
| `BrowserManager.TypeFirstAttempt` | core/browser_manager.py:204-224 | when the element is found at once, the trace is wait, then `clear()` exactly when `clear_first`, then `send_keys(text)` |
| `BrowserManager.TypeNeverFound` | core/browser_manager.py:204-224 | a locator that never appears gives 3 type attempts of 3 waits each, nine presence waits, and the last wait's exception propagates |
| `BrowserManager.TypeNeverFoundTypesNothing` | core/browser_manager.py:204-224 | in that case the field is never cleared and no key is sent |
| `BrowserManager.TypeNeverFoundWaitCaptures` | core/browser_manager.py:204-224 | in that case each of the three nested `wait_for` calls captures evidence once |
| `BrowserManager.TypeNeverFoundOwnCapture` | core/browser_manager.py:204-224 | in that case `type` itself captures evidence exactly once |
| `BrowserManager.TypeNeverFoundCount` | core/browser_manager.py:204-224 | the general count behind those, for any event kind the wrappers never emit |
| `BrowserManager.GetText` | core/browser_manager.py:226-232 | `get_text`, capture only; stated by `BrowserManager.GetTextUnchanged` |
| `BrowserManager.GetTextUnchanged` | core/browser_manager.py:226-232 | `get_text` returns the element text exactly as read, untrimmed |
| `BrowserManager.ExtractTableResult` | core/browser_manager.py:339-375 | any list `extract_table` returns is the table transform of the rows one of its two attempts read |
| `BrowserManager.ExtractTableOp` | core/browser_manager.py:339-375 | `extract_table`, capture over two attempts 2 s apart, each with a nested `wait_for` without timeout; stated by `BrowserManager.ExtractTableResult` and the `BrowserManager.ExtractTableNeverFound` group |
| `BrowserManager.ExtractTableNeverFound` | core/browser_manager.py:339-375 | a table that never appears gives 2 attempts of 3 waits each, six presence waits with the session's timeout, and the last wait's exception propagates |
| `BrowserManager.ExtractTableNeverFoundReadsNothing` | core/browser_manager.py:339-375 | in that case no rows are read |
| `BrowserManager.ExtractTableNeverFoundWaitCaptures` | core/browser_manager.py:339-375 | in that case each of the two nested `wait_for` calls captures evidence once |
| `BrowserManager.ExtractTableNeverFoundOwnCapture` | core/browser_manager.py:339-375 | in that case `extract_table` itself captures evidence exactly once |
| `BrowserManager.ExtractTableNeverFoundCount` | core/browser_manager.py:339-375 | the general count behind those: 2 × (3 × presence wait + `wait_for` capture) + `extract_table` capture |
| `BrowserManager.Quit` | core/browser_manager.py:446-452 | `quit` sends one quit command and never raises an `Exception`; only a `BaseException` outside it escapes |
| `BasePage.NewPage` | core/base_page.py:20-26 | the constructor succeeds exactly for a `Browser` and raises `TypeError` for anything else |
| `BasePage.PageGoTo` | core/base_page.py:53-61 | `go_to(url)`; stated by `BasePage.PageGoToTarget` |
| `BasePage.PageWaitFor` | core/base_page.py:89-94 | `wait_for(locator, timeout)`; stated by `BasePage.PageWaitForDelegates` and `BasePage.WaitEndsWithPoll` |
| `BasePage.WaitEndsWithPoll` | core/base_page.py:89-94 | a wait that returns an element ends with its presence wait |
| `BasePage.PageClick` | core/base_page.py:63-69 | `click(locator, timeout)`; stated by `BasePage.PageClickOnce` |
| `BasePage.PageType` | core/base_page.py:71-79 | `type(locator, text, clear_first, timeout)`; stated by `BasePage.PageTypeClearsIff` |
| `BasePage.PageText` | core/base_page.py:81-87 | `text(locator, timeout)`; stated by `BasePage.PageTextUnchanged` |
| `BasePage.PageGoToTarget` | core/base_page.py:53-61 | a truthy argument wins over `URL`. With neither truthy, `ValueError` is raised before any browser call; otherwise exactly one navigation to the target |
| `BasePage.PageWaitForDelegates` | core/base_page.py:89-94 | the locator is unpacked as `(by, selector)`, and with the default timeout every presence wait is for that locator, 10 seconds |
| `BasePage.PageClickOnce` | core/base_page.py:63-69 | only the wait is retried: the element is clicked exactly once, and a failing click raises its own exception |
| `BasePage.PageTypeClearsIff` | core/base_page.py:71-79 | the text is sent last, and `clear()` comes right before it if and only if `clear_first` |
| `BasePage.PageTextUnchanged` | core/base_page.py:81-87 | `text` returns the element text unchanged |
| `ConfigManager.MergedEntries` | core/config_manager.py:17-29 | the merged map holds the YAML keys and the environment keys. An environment value overrides the YAML value of the same key, the process's over `.env`'s, and YAML-only keys keep their value |
| `ConfigManager.Merged` | core/config_manager.py:17-29 | the map `load` builds; stated by `ConfigManager.MergedEntries` |
| `ConfigManager.Load` | core/config_manager.py:9-32 | a non-empty cache is returned without reading; an empty one makes `load` read and cache the merge |
| `ConfigManager.LoadOnce` | core/config_manager.py:11-31 | after a first load with a non-empty result, later loads return that map whatever the sources become; an empty result is read again next time |
| `ConfigManager.GetRules` | core/config_manager.py:34-43 | `get` returns: the default (None) for an absent key; the default for a stored None; the cast value when the cast succeeds; the raw value when it fails; and for an absent key with a default, the cast default |
| `ConfigManager.Get` | core/config_manager.py:34-43 | `get(key, default, cast)`: it loads (so the cache is what `load` leaves) and looks up; the lookup is stated by `ConfigManager.GetRules` |
| `ConfigManager.EnvironmentWinsOverYaml` | core/config_manager.py:27-43 | a process variable that cannot be cast comes back from `get` as its raw string, even when the YAML file has the key |
| `ConfigManager.YamlOnlyKeyKept` | core/config_manager.py:21-43 | a key only the YAML file defines is returned cast |

## Left out

- Real time. Sleeps are events carrying the delay in milliseconds: 1.5 s is 1500 and 2.0 s is 2000. `WebDriverWait` polling is one event per presence wait. `time_it`'s elapsed time is only its log event.
- Log messages. Only the capture's `logger.exception` and `time_it`'s line are events; the other `logger` calls (including the retry warning's text) are not modelled.
- Driver startup inside `_start_driver`: webdriver_manager downloads, browser options and the Selenium constructors are foreign calls. Only the closed choice between "chrome" and "firefox" and the `ValueError` are modelled.
- The constructor's configuration defaults. With `browser=None`, line 45 calls `None.lower()`. With `headless=None`, line 46 names an undefined `ctg`. `Start` takes the name and `headless` explicitly. It models `implicit_wait` and `log_level` not at all.
- BrowserManager.Lower: only ASCII capitals are mapped. Python's `str.lower()` also maps other Unicode letters; outside ASCII, this changes the name quoted in the `ValueError`, not which names are accepted.
- Selenium pass-throughs with no logic of their own: ActionChains gestures, scrolling, keys, alerts, frames (`switch_to_frame` included), `execute_script`, `screenshot`, `capture_evidence`, `scroll_to`.
- ErrorHandler.CaptureOnFailure: an evidence file counts as written when its write did not raise. Selenium's `save_screenshot` returns False on an `OSError` instead of raising, and `open(html_path, "w")` creates the file before `f.write` runs, so a write that raises can leave a partial HTML file. Neither is modelled.
- ErrorHandler.ScreenshotPath and ErrorHandler.HtmlPath join with "/", as `os.path.join` does on POSIX; the Windows separator is not modelled.
- Tabs: the driver is assumed to list window handles without repetition and a new window last. A driver failure other than a closed focused window or an ended session is not modelled.
- Tabs.CloseAllOtherTabs: the loop's own switch and close commands are taken to succeed. They act on handles from the snapshot that are still open.
- Element reads inside `extract_table`. Every `find_elements` and `.text` of one attempt is folded into a single outcome, `rows(k)`.
- `BasePage`'s abstract `URL` and `is_loaded`, which subclasses supply: the URL is a parameter. Also left out are `screenshot`, `get_title`, `current_url` and the empty hooks.
- ConfigManager: parsing of YAML and of the `.env` file (their results are parameters). The order of dict entries. A YAML document that is not a mapping. The semantics of `cast`, which is an opaque partial function.
- Everything outside the core: utils/logger.py, excel/excel_manager.py, pages/*, components/*, flows/* and examples/*.
