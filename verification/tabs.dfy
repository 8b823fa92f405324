/** The tab methods of `Browser` (core/browser_manager.py): `new_tab`, `tabs_count`,
    `switch_to_tab`, `current_tab`, `close_tab` and `close_all_other_tabs`.

    The driver's window state is the list `driver.window_handles` and the handle the
    driver is focused on. After `driver.close()` the focused handle names a window
    that no longer exists; asking for it, running a script in it or closing it again
    raises `NoSuchWindowException`, written `WindowClosed`. Closing the last window
    ends the driver session (the Close Window command of the W3C WebDriver
    specification): a window state with no handle is that ended session, and every
    driver call on it, `window_handles` included, raises `InvalidSessionIdException`,
    written `SessionEnded`. Window handles are unique identifiers, so every state the
    driver reports has pairwise different handles.

    A command sent to the driver (open, switch, close) is recorded in the trace when
    it is sent, whether or not the driver then raises; reading `window_handles` or
    `current_window_handle` is not recorded. */
module Tabs {
  import opened Outcomes
  import opened ErrorHandler

  datatype Window = Window(handles: seq<nat>, current: nat)

  /** What a tab operation did, and the driver's window state afterwards. */
  datatype Step<T> = Step(run: Run<T>, after: Window)

  predicate Distinct(s: seq<nat>)
  {
    forall i, j :: 0 <= i < j < |s| ==> s[i] != s[j]
  }

  /** `s` without the handle `h`. */
  function Remove(s: seq<nat>, h: nat): seq<nat>
  {
    if |s| == 0 then [] else (if s[0] == h then [] else [s[0]]) + Remove(s[1..], h)
  }

  lemma {:induction false} RemoveMembers(s: seq<nat>, h: nat)
    ensures forall x :: x in Remove(s, h) <==> x in s && x != h
  {
    if |s| > 0 {
      RemoveMembers(s[1..], h);
      assert s == [s[0]] + s[1..];
    }
  }

  lemma {:induction false} RemoveAppend(a: seq<nat>, b: seq<nat>, h: nat)
    ensures Remove(a + b, h) == Remove(a, h) + Remove(b, h)
  {
    if |a| == 0 {
      assert a + b == b;
    } else {
      assert (a + b)[1..] == a[1..] + b;
      RemoveAppend(a[1..], b, h);
    }
  }

  lemma {:induction false} RemoveAbsent(s: seq<nat>, h: nat)
    requires h !in s
    ensures Remove(s, h) == s
  {
    if |s| > 0 {
      RemoveAbsent(s[1..], h);
      assert s == [s[0]] + s[1..];
    }
  }

  /** Closing a window that occurs once: one handle fewer, the others in order. */
  lemma {:induction false} RemoveOne(s: seq<nat>, i: nat)
    requires i < |s| && s[i] !in s[..i] && s[i] !in s[i + 1..]
    ensures Remove(s, s[i]) == s[..i] + s[i + 1..]
  {
    var h, t := s[i], s[1..];
    if i == 0 {
      RemoveAbsent(t, h);
    } else {
      assert t[..i - 1] == s[1..i] && s[..i] == [s[0]] + t[..i - 1];
      assert t[i..] == s[i + 1..];
      RemoveOne(t, i - 1);
    }
  }

  /** Dropping one position keeps the handles pairwise different. */
  lemma DistinctWithout(s: seq<nat>, i: nat)
    requires Distinct(s) && i < |s|
    ensures Distinct(s[..i] + s[i + 1..])
  {
    var r := s[..i] + s[i + 1..];
    forall a, b | 0 <= a < b < |r| ensures r[a] != r[b] {
      var a', b' := if a < i then a else a + 1, if b < i then b else b + 1;
      assert r[a] == s[a'] && r[b] == s[b'];
    }
  }

  /** Position of the first occurrence of `x` in `s`. */
  function FirstIndex(s: seq<nat>, x: nat): (i: nat)
    requires x in s
    ensures i < |s| && s[i] == x
    ensures forall j :: 0 <= j < i ==> s[j] != x
  {
    if s[0] == x then 0 else 1 + FirstIndex(s[1..], x)
  }

  /** `tabs_count()`: the number of open windows, which an ended session cannot report. */
  function TabsCount(w: Window): (r: Outcome<nat>)
    ensures r.Ok? <==> |w.handles| > 0
    ensures r.Ok? ==> r.value == |w.handles|
    ensures r.Err? ==> r.exc == SessionEnded
  {
    if |w.handles| == 0 then Err(SessionEnded) else Ok(|w.handles|)
  }

  /** `switch_to_tab(index)`, decorated with `capture_failures`: reading the handle list
      raises in an ended session, and an index outside it raises `IndexError`, both
      before the driver is asked to switch. */
  function SwitchToTab(w: Window, index: int, cap: CaptureEnv): (s: Step<()>)
    ensures 0 <= index < |w.handles| ==> s == Step(Run(Ok(()), [SwitchTo(w.handles[index])]), w.(current := w.handles[index]))
    ensures !(0 <= index < |w.handles|) ==> s.after == w && s.run.outcome.Err?
                                            && forall i :: 0 <= i < |s.run.trace| ==> !s.run.trace[i].SwitchTo?
    ensures |w.handles| == 0 && Tolerable(cap) ==> s.run.outcome == Err(SessionEnded)
    ensures |w.handles| > 0 && !(0 <= index < |w.handles|) && Tolerable(cap) ==> s.run.outcome == Err(TabIndexError(index))
  {
    if |w.handles| == 0 then
      Step(Capture("switch_to_tab", Run(Err(SessionEnded), []), cap), w)
    else if index < 0 || index >= |w.handles| then
      var c := Capture("switch_to_tab", Run(Err(TabIndexError(index)), []), cap);
      Step(c, w)
    else
      var h := w.handles[index];
      Step(Capture("switch_to_tab", Run(Ok(()), [SwitchTo(h)]), cap), w.(current := h))
  }

  /** `current_tab()`: the position of the focused handle in the handle list. */
  function CurrentTab(w: Window): (r: Outcome<nat>)
    ensures r.Ok? <==> w.current in w.handles
    ensures r.Ok? ==> r.value < |w.handles| && w.handles[r.value] == w.current
    ensures r.Err? ==> r.exc == (if |w.handles| == 0 then SessionEnded else WindowClosed)
  {
    if |w.handles| == 0 then Err(SessionEnded)
    else if w.current in w.handles then Ok(FirstIndex(w.handles, w.current))
    else Err(WindowClosed)
  }

  /** Switching to a valid index i makes `current_tab()` answer i. */
  lemma SwitchThenCurrent(w: Window, i: int, cap: CaptureEnv)
    requires Distinct(w.handles) && 0 <= i < |w.handles|
    ensures CurrentTab(SwitchToTab(w, i, cap).after) == Ok(i)
  {
    CurrentAt(SwitchToTab(w, i, cap).after, i);
  }

  /** `new_tab(url)`: the script that opens a window raises in an ended session and
      when the focused window is closed, and then nothing opens. Otherwise the driver
      opens a window, which it lists last under the handle `handle`; the new window is
      focused, and a truthy `url` is loaded there with `go_to`, whose `driver.get`
      raises `nav` if that is present. */
  function NewTab(w: Window, handle: nat, url: Option<string>, nav: Option<Exc>, cap: CaptureEnv): (s: Step<()>)
    requires handle !in w.handles
    ensures |w.handles| == 0 ==> s == Step(Run(Err(SessionEnded), [OpenWindow]), w)
    ensures |w.handles| > 0 && w.current !in w.handles ==> s == Step(Run(Err(WindowClosed), [OpenWindow]), w)
    ensures w.current in w.handles ==> s.after == Window(w.handles + [handle], handle)
    ensures Navigate(if url.Some? then url.value else "") in s.run.trace
        <==> w.current in w.handles && url.Some? && url.value != ""
    ensures s.run.outcome.Err? <==> w.current !in w.handles || (url.Some? && url.value != "" && nav.Some?)
  {
    if |w.handles| == 0 then Step(Run(Err(SessionEnded), [OpenWindow]), w)
    else if w.current !in w.handles then Step(Run(Err(WindowClosed), [OpenWindow]), w)
    else
      var grown := Window(w.handles + [handle], w.current);
      var sw := SwitchToTab(grown, TabsCount(grown).value - 1, cap);
      var head := [OpenWindow] + sw.run.trace;
      assert head == [OpenWindow, SwitchTo(handle)];
      if url.Some? && url.value != "" then
        var tail := [Navigate(url.value)];
        assert tail[0] == Navigate(url.value);
        Step(Run(if nav.Some? then Err(nav.value) else Ok(()), head + tail), sw.after)
      else
        Step(Run(Ok(()), head), sw.after)
  }

  /** A new tab opened from a live focused window ends focused on the last handle,
      and `current_tab()` reports it. */
  lemma NewTabIsLast(w: Window, handle: nat, url: Option<string>, nav: Option<Exc>, cap: CaptureEnv)
    requires Distinct(w.handles) && handle !in w.handles && w.current in w.handles
    ensures Distinct(NewTab(w, handle, url, nav, cap).after.handles)
    ensures CurrentTab(NewTab(w, handle, url, nav, cap).after) == Ok(|w.handles|)
  {
    var a := NewTab(w, handle, url, nav, cap).after;
    assert a.handles[|w.handles|] == handle;
    CurrentAt(a, |w.handles|);
  }

  /** `close_tab()`: closes the focused window and, if any window is left, focuses the
      last one through `switch_to_tab`. When the closed window was the last one, the
      session is over and the `tabs_count()` guard itself raises. */
  function CloseTab(w: Window, cap: CaptureEnv): (s: Step<()>)
    ensures |w.handles| == 0 ==> s == Step(Run(Err(SessionEnded), [CloseWindow(w.current)]), w)
    ensures |w.handles| > 0 && w.current !in w.handles ==> s == Step(Run(Err(WindowClosed), [CloseWindow(w.current)]), w)
    ensures w.current in w.handles ==> s.after.handles == Remove(w.handles, w.current)
    ensures w.current in w.handles && |Remove(w.handles, w.current)| > 0
         ==> s.run.outcome == Ok(()) && s.after.current == s.after.handles[|s.after.handles| - 1]
    ensures w.current in w.handles && |Remove(w.handles, w.current)| == 0
         ==> s.run == Run(Err(SessionEnded), [CloseWindow(w.current)])
  {
    var closed := [CloseWindow(w.current)];
    if |w.handles| == 0 then Step(Run(Err(SessionEnded), closed), w)
    else if w.current !in w.handles then Step(Run(Err(WindowClosed), closed), w)
    else
      var rest := Window(Remove(w.handles, w.current), w.current);
      match TabsCount(rest)
      case Err(e) => Step(Run(Err(e), closed), rest)
      case Ok(n) =>
        var sw := SwitchToTab(rest, n - 1, cap);
        Step(Run(sw.run.outcome, closed + sw.run.trace), sw.after)
  }

  /** Closing the only window ends the session: the close itself reports it, and
      every tab operation afterwards raises `SessionEnded`. */
  lemma ClosingLastTabEndsSession(w: Window, cap: CaptureEnv, index: int, handle: nat,
                                  url: Option<string>, nav: Option<Exc>)
    requires w.handles == [w.current] && Tolerable(cap)
    ensures var a := CloseTab(w, cap);
            a.run.outcome == Err(SessionEnded)
            && TabsCount(a.after) == Err(SessionEnded)
            && CurrentTab(a.after) == Err(SessionEnded)
            && SwitchToTab(a.after, index, cap).run.outcome == Err(SessionEnded)
            && NewTab(a.after, handle, url, nav, cap).run.outcome == Err(SessionEnded)
            && CloseTab(a.after, cap).run.outcome == Err(SessionEnded)
  {
    RemoveHead(w.current, []);
    assert [w.current] + [] == [w.current];
  }

  /** Closing the focused tab of a valid state removes exactly that handle, keeps the
      others in order and pairwise different, and focuses the last one if any is left. */
  lemma CloseTabRemovesCurrent(w: Window, cap: CaptureEnv)
    requires Distinct(w.handles) && w.current in w.handles
    ensures var a := CloseTab(w, cap).after;
            var i := FirstIndex(w.handles, w.current);
            a.handles == w.handles[..i] + w.handles[i + 1..] && Distinct(a.handles)
            && w.current !in a.handles
            && (|a.handles| > 0 ==> CurrentTab(a) == Ok(|a.handles| - 1))
  {
    var a := CloseTab(w, cap).after;
    var i := FirstIndex(w.handles, w.current);
    RemoveAt(w.handles, i);
    if |a.handles| > 0 {
      CurrentAt(a, |a.handles| - 1);
    }
  }

  /** Removing the handle at position i of a valid handle list. */
  lemma RemoveAt(hs: seq<nat>, i: nat)
    requires Distinct(hs) && i < |hs|
    ensures Remove(hs, hs[i]) == hs[..i] + hs[i + 1..]
    ensures Distinct(hs[..i] + hs[i + 1..]) && hs[i] !in hs[..i] + hs[i + 1..]
  {
    OccursOnce(hs, i);
    RemoveOne(hs, i);
    DistinctWithout(hs, i);
    RemoveMembers(hs, hs[i]);
  }

  /** With pairwise different handles, `current_tab()` is the position of the focus. */
  lemma CurrentAt(w: Window, i: nat)
    requires Distinct(w.handles) && i < |w.handles| && w.current == w.handles[i]
    ensures CurrentTab(w) == Ok(i)
  {
    var j := FirstIndex(w.handles, w.current);
    assert !(j < i) && !(i < j);
  }

  /** Reference trace of the loop of `close_all_other_tabs` over `hs`: every handle
      other than `keep` is focused and closed, in list order. */
  function CloseOthers(hs: seq<nat>, keep: nat): seq<Event>
  {
    if |hs| == 0 then []
    else
      var h := hs[|hs| - 1];
      CloseOthers(hs[..|hs| - 1], keep) + (if h != keep then [SwitchTo(h), CloseWindow(h)] else [])
  }

  /** The windows still open after the loop of `close_all_other_tabs` has visited
      `all[..i]`: the kept one, if already passed, and those not yet visited. */
  function Live(all: seq<nat>, i: nat, keep: nat): seq<nat>
    requires i <= |all|
  {
    (if keep in all[..i] then [keep] else []) + all[i..]
  }

  /** Visiting a handle other than the kept one closes exactly that window. */
  lemma CloseVisited(all: seq<nat>, i: nat, keep: nat)
    requires i < |all| && all[i] != keep && all[i] !in all[i + 1..]
    ensures Remove(Live(all, i, keep), all[i]) == Live(all, i + 1, keep)
  {
    var h, rest := all[i], all[i + 1..];
    assert all[..i + 1] == all[..i] + [h];
    assert all[i..] == [h] + rest;
    RemoveHead(h, rest);
    if keep in all[..i] {
      RemoveAppend([keep], [h] + rest, h);
      RemoveAbsent([keep], h);
    } else {
      assert [] + ([h] + rest) == [h] + rest;
    }
  }

  lemma RemoveHead(h: nat, rest: seq<nat>)
    requires h !in rest
    ensures Remove([h] + rest, h) == rest
  {
    assert ([h] + rest)[1..] == rest;
    RemoveAbsent(rest, h);
  }

  /** Visiting the kept handle leaves every window open. */
  lemma PassKept(all: seq<nat>, i: nat, keep: nat)
    requires i < |all| && all[i] == keep && keep !in all[..i]
    ensures Live(all, i, keep) == Live(all, i + 1, keep)
  {
    assert all[..i + 1] == all[..i] + [keep];
  }

  /** In a list of pairwise different handles, position i holds a handle that
      occurs neither before nor after it. */
  lemma OccursOnce(all: seq<nat>, i: nat)
    requires Distinct(all) && i < |all|
    ensures all[i] !in all[..i] && all[i] !in all[i + 1..]
  {
    forall j | 0 <= j < i ensures all[..i][j] != all[i] { }
    forall j | i + 1 <= j < |all| ensures all[j] != all[i] { }
  }

  lemma CloseOthersStep(all: seq<nat>, i: nat, keep: nat)
    requires i < |all|
    ensures CloseOthers(all[..i + 1], keep)
         == CloseOthers(all[..i], keep) + (if all[i] != keep then [SwitchTo(all[i]), CloseWindow(all[i])] else [])
  {
    assert all[..i + 1][..i] == all[..i];
  }

  /** One turn of the loop of `close_all_other_tabs`. */
  lemma Visit(all: seq<nat>, i: nat, keep: nat)
    requires Distinct(all) && i < |all|
    ensures all[i] != keep ==> Remove(Live(all, i, keep), all[i]) == Live(all, i + 1, keep)
    ensures all[i] == keep ==> Live(all, i, keep) == Live(all, i + 1, keep)
    ensures CloseOthers(all[..i + 1], keep)
         == CloseOthers(all[..i], keep) + (if all[i] != keep then [SwitchTo(all[i]), CloseWindow(all[i])] else [])
  {
    CloseOthersStep(all, i, keep);
    OccursOnce(all, i);
    if all[i] != keep {
      CloseVisited(all, i, keep);
    } else {
      PassKept(all, i, keep);
    }
  }

  /** After the loop only the kept window is open. */
  lemma LiveAtEnd(all: seq<nat>, keep: nat)
    requires keep in all
    ensures Live(all, |all|, keep) == [keep]
  {
    assert all[..|all|] == all;
  }

  /** The loop of `close_all_other_tabs` over the snapshot `all`, keeping `keep`: the
      windows left open and the commands sent. */
  method CloseOthersLoop(all: seq<nat>, keep: nat) returns (live: seq<nat>, trace: seq<Event>)
    requires Distinct(all)
    ensures live == Live(all, |all|, keep)
    ensures trace == CloseOthers(all, keep)
  {
    live, trace := all, [];
    var i := 0;
    while i < |all|
      invariant 0 <= i <= |all|
      invariant live == Live(all, i, keep)
      invariant trace == CloseOthers(all[..i], keep)
    {
      var h := all[i];
      Visit(all, i, keep);
      if h != keep {
        trace := trace + [SwitchTo(h), CloseWindow(h)];
        live := Remove(live, h);
      }
      i := i + 1;
    }
    assert all[..|all|] == all;
  }

  /** `close_all_other_tabs()`: snapshot the focused handle and the handle list, close
      every other window, and focus the kept one again. Reading the focused handle
      raises before anything is closed when that window is gone or the session has
      ended. */
  method CloseAllOtherTabs(w: Window) returns (s: Step<()>)
    requires Distinct(w.handles)
    ensures w.current !in w.handles
         ==> s == Step(Run(Err(if |w.handles| == 0 then SessionEnded else WindowClosed), []), w)
    ensures w.current in w.handles ==>
              s.run == Run(Ok(()), CloseOthers(w.handles, w.current) + [SwitchTo(w.current)])
              && s.after == Window([w.current], w.current)
  {
    if |w.handles| == 0 {
      return Step(Run(Err(SessionEnded), []), w);
    }
    if w.current !in w.handles {
      return Step(Run(Err(WindowClosed), []), w);
    }
    var live, trace := CloseOthersLoop(w.handles, w.current);
    LiveAtEnd(w.handles, w.current);
    return Step(Run(Ok(()), trace + [SwitchTo(w.current)]), Window(live, w.current));
  }
}
