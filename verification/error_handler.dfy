/** utils/error_handler.py: `capture_failures`.

    On an exception the wrapper names two evidence files after the wall-clock second
    and the wrapped function's `__name__`, creates the evidence folder, tries the
    screenshot and the HTML dump independently, logs, and re-raises the very same
    exception object. The environment of one capture (the clock reading and what each
    file-system or driver step raises) is a `CaptureEnv`. */
module ErrorHandler {
  import opened Outcomes
  import opened Decimal

  /** Local broken-down time as `time.localtime()` gives it, with the sub-second part. */
  datatype Instant = Instant(year: nat, month: nat, day: nat, hour: nat, minute: nat, second: nat, micros: nat)
  {
    predicate Valid()
    {
      1 <= month <= 12 && 1 <= day <= 31 && hour <= 23 && minute <= 59 && second <= 61 && micros < 1000000
    }
  }

  /** A reading `time.localtime()` can produce. */
  type LocalTime = t: Instant | t.Valid() witness Instant(1970, 1, 1, 0, 0, 0, 0)

  /** The two instants fall in the same wall-clock second. */
  predicate SameSecond(a: Instant, b: Instant)
  {
    a.year == b.year && a.month == b.month && a.day == b.day
    && a.hour == b.hour && a.minute == b.minute && a.second == b.second
  }

  /** Everything `%Y-%m-%d_%H-%M-%S` prints after the year. */
  function StampTail(t: LocalTime): (s: string)
    ensures |s| == 15 && s[0] == '-'
  {
    var mo, d, h, mi, se := Pad2(t.month), Pad2(t.day), Pad2(t.hour), Pad2(t.minute), Pad2(t.second);
    ['-', mo[0], mo[1], '-', d[0], d[1], '_', h[0], h[1], '-', mi[0], mi[1], '-', se[0], se[1]]
  }

  /** `time.strftime("%Y-%m-%d_%H-%M-%S")` at instant `t`. */
  function Stamp(t: LocalTime): string
  {
    Dec(t.year) + StampTail(t)
  }

  const ErrorFolder: string := "logs/errors"

  /** `os.path.join("logs/errors", f"{timestamp}_{name}" + ".png")` (POSIX separator). */
  function ScreenshotPath(stamp: string, name: string): string
  {
    (ErrorFolder + "/") + (stamp + "_" + name) + ".png"
  }

  /** The same for the HTML dump. */
  function HtmlPath(stamp: string, name: string): string
  {
    (ErrorFolder + "/") + (stamp + "_" + name) + ".html"
  }

  /** What one capture meets: the clock reading, and what `os.makedirs`, the
      screenshot and the HTML dump raise (None when they do not raise). */
  datatype CaptureEnv = CaptureEnv(at: LocalTime, makeDirs: Option<Exc>, screenshot: Option<Exc>, html: Option<Exc>)

  /** A write attempt's outcome that the guarding `except Exception` absorbs. */
  predicate Absorbed(w: Option<Exc>)
  {
    w.None? || w.value.IsException()
  }

  /** The folder can be created and neither write raises past its guard. */
  predicate Tolerable(env: CaptureEnv)
  {
    env.makeDirs.None? && Absorbed(env.screenshot) && Absorbed(env.html)
  }

  /** The events a capture for `name` may append: the folder, the two evidence
      files and the logged exception. */
  predicate CaptureEvent(name: string, e: Event)
  {
    e.MakeDirs? || e.Screenshot? || e.HtmlDump? || e == LogException(name)
  }

  /** `capture_failures(func)` around a call of `func` that behaved as `r`. */
  function Capture<T>(name: string, r: Run<T>, env: CaptureEnv): (c: Run<T>)
    ensures r.outcome.Ok? ==> c == r
    ensures r.outcome.Err? && !r.outcome.exc.IsException() ==> c == r
    ensures r.outcome.Err? && r.outcome.exc.IsException() && Tolerable(env) ==> c.outcome == r.outcome
    ensures |c.trace| >= |r.trace| && c.trace[..|r.trace|] == r.trace
    ensures forall i :: |r.trace| <= i < |c.trace| ==> CaptureEvent(name, c.trace[i])
  {
    if r.outcome.Ok? || !r.outcome.exc.IsException() then r
    else
      var stamp := Stamp(env.at);
      var png := ScreenshotPath(stamp, name);
      var html := HtmlPath(stamp, name);
      if env.makeDirs.Some? then
        Run(Err(env.makeDirs.value), r.trace + [MakeDirs(ErrorFolder, false)])
      else
        var t1 := r.trace + [MakeDirs(ErrorFolder, true), Screenshot(png, env.screenshot.None?)];
        if !Absorbed(env.screenshot) then Run(Err(env.screenshot.value), t1)
        else
          var t2 := t1 + [HtmlDump(html, env.html.None?)];
          if !Absorbed(env.html) then Run(Err(env.html.value), t2)
          else Run(r.outcome, t2 + [LogException(name)])
  }

  /** The events a tolerable capture appends after the failed call. */
  function CaptureEvents(name: string, env: CaptureEnv): seq<Event>
  {
    var stamp := Stamp(env.at);
    [ MakeDirs(ErrorFolder, true),
      Screenshot(ScreenshotPath(stamp, name), env.screenshot.None?),
      HtmlDump(HtmlPath(stamp, name), env.html.None?),
      LogException(name) ]
  }

  /** The evidence files a tolerable capture records: the ones whose write did not raise. */
  lemma CaptureEventsArtifacts(name: string, env: CaptureEnv)
    ensures Artifacts(CaptureEvents(name, env))
         == (if env.screenshot.None? then [ScreenshotPath(Stamp(env.at), name)] else [])
            + (if env.html.None? then [HtmlPath(Stamp(env.at), name)] else [])
  {
    var ev := CaptureEvents(name, env);
    assert ev == [ev[0]] + ([ev[1]] + ([ev[2]] + [ev[3]]));
    ArtifactsAppend([ev[0]], [ev[1]] + ([ev[2]] + [ev[3]]));
    ArtifactsAppend([ev[1]], [ev[2]] + [ev[3]]);
    ArtifactsAppend([ev[2]], [ev[3]]);
    assert Artifacts([ev[0]]) == [];
    assert Artifacts([ev[3]]) == [];
  }

  /** On an Exception, with the folder available: both writes are attempted whatever
      the first one did, exactly the files whose write did not raise are added to the
      evidence list, and the original exception object is raised again. */
  lemma CaptureOnFailure<T>(name: string, r: Run<T>, env: CaptureEnv)
    requires r.outcome.Err? && r.outcome.exc.IsException() && Tolerable(env)
    ensures Capture(name, r, env) == Run(r.outcome, r.trace + CaptureEvents(name, env))
    ensures Artifacts(Capture(name, r, env).trace)
         == Artifacts(r.trace)
            + (if env.screenshot.None? then [ScreenshotPath(Stamp(env.at), name)] else [])
            + (if env.html.None? then [HtmlPath(Stamp(env.at), name)] else [])
  {
    var ev := CaptureEvents(name, env);
    assert r.trace + [ev[0], ev[1]] + [ev[2]] + [ev[3]] == r.trace + ev;
    ArtifactsAppend(r.trace, ev);
    CaptureEventsArtifacts(name, env);
  }

  /** How often a property of events holds among the events of a tolerable capture,
      when it holds of no file-system event: once if it holds of the log line. */
  lemma CaptureEventsCount(name: string, env: CaptureEnv, p: Event -> bool)
    requires forall e: Event :: (e.MakeDirs? || e.Screenshot? || e.HtmlDump?) ==> !p(e)
    ensures CountWhere(CaptureEvents(name, env), p) == if p(LogException(name)) then 1 else 0
  {
    var ev := CaptureEvents(name, env);
    assert ev == [ev[0]] + ([ev[1]] + ([ev[2]] + [ev[3]]));
    CountWhereAppend([ev[0]], [ev[1]] + ([ev[2]] + [ev[3]]), p);
    CountWhereAppend([ev[1]], [ev[2]] + [ev[3]], p);
    CountWhereAppend([ev[2]], [ev[3]], p);
    CountSingle(ev[0], p);
    CountSingle(ev[1], p);
    CountSingle(ev[2], p);
    CountSingle(ev[3], p);
  }

  /** A capture adds only file-system events and the log line: a property of events
      that the wrapped call's trace and all of those have holds of the whole trace. */
  lemma CaptureKeeps<T>(name: string, r: Run<T>, env: CaptureEnv, q: Event -> bool)
    requires forall i :: 0 <= i < |r.trace| ==> q(r.trace[i])
    requires forall e: Event :: (e.MakeDirs? || e.Screenshot? || e.HtmlDump?) ==> q(e)
    requires q(LogException(name))
    ensures forall i :: 0 <= i < |Capture(name, r, env).trace| ==> q(Capture(name, r, env).trace[i])
  {
  }

  /** `os.makedirs` is outside every guard: its exception escapes in place of the
      original one, and no file is attempted. */
  lemma CaptureFolderFailureEscapes<T>(name: string, r: Run<T>, env: CaptureEnv)
    requires r.outcome.Err? && r.outcome.exc.IsException() && env.makeDirs.Some?
    ensures Capture(name, r, env).outcome == Err(env.makeDirs.value)
    ensures Artifacts(Capture(name, r, env).trace) == Artifacts(r.trace)
  {
    ArtifactsAppend(r.trace, [MakeDirs(ErrorFolder, false)]);
    assert [MakeDirs(ErrorFolder, false)][1..] == [];
  }

  /** The stamp has one-second resolution: two instants in the same second give the
      same stamp, and (for valid instants) the same stamp means the same second. */
  lemma StampIdentifiesSecond(a: LocalTime, b: LocalTime)
    ensures Stamp(a) == Stamp(b) <==> SameSecond(a, b)
  {
    if Stamp(a) == Stamp(b) {
      DigitPrefixUnique(Dec(a.year), StampTail(a), Dec(b.year), StampTail(b));
      DecInjective(a.year, b.year);
      Pad2Injective(a.month, b.month);
      Pad2Injective(a.day, b.day);
      Pad2Injective(a.hour, b.hour);
      Pad2Injective(a.minute, b.minute);
      Pad2Injective(a.second, b.second);
    }
  }

  /** `stamp + "_" + name` determines both the second and the name. */
  lemma BaseNameUnique(a: LocalTime, m1: string, b: LocalTime, m2: string)
    requires Stamp(a) + "_" + m1 == Stamp(b) + "_" + m2
    ensures SameSecond(a, b) && m1 == m2
  {
    var ra, rb := StampTail(a) + ("_" + m1), StampTail(b) + ("_" + m2);
    StampRegroup(a, m1);
    StampRegroup(b, m2);
    DigitPrefixUnique(Dec(a.year), ra, Dec(b.year), rb);
    SplitAt(StampTail(a), "_" + m1, StampTail(b), "_" + m2);
    assert m1 == ("_" + m1)[1..] && m2 == ("_" + m2)[1..];
    StampIdentifiesSecond(a, b);
  }

  lemma StampRegroup(t: LocalTime, m: string)
    ensures Stamp(t) + "_" + m == Dec(t.year) + (StampTail(t) + ("_" + m))
  {
  }

  /** Two captures write to the same screenshot path exactly when they happen in the
      same second for the same method; likewise for the HTML path. */
  lemma ArtifactPathsCollideIff(a: LocalTime, m1: string, b: LocalTime, m2: string)
    ensures ScreenshotPath(Stamp(a), m1) == ScreenshotPath(Stamp(b), m2) <==> SameSecond(a, b) && m1 == m2
    ensures HtmlPath(Stamp(a), m1) == HtmlPath(Stamp(b), m2) <==> SameSecond(a, b) && m1 == m2
  {
    var pre := ErrorFolder + "/";
    if SameSecond(a, b) && m1 == m2 {
      StampIdentifiesSecond(a, b);
    }
    if ScreenshotPath(Stamp(a), m1) == ScreenshotPath(Stamp(b), m2) {
      SameAffixes(pre, Stamp(a) + "_" + m1, Stamp(b) + "_" + m2, ".png");
      BaseNameUnique(a, m1, b, m2);
    }
    if HtmlPath(Stamp(a), m1) == HtmlPath(Stamp(b), m2) {
      SameAffixes(pre, Stamp(a) + "_" + m1, Stamp(b) + "_" + m2, ".html");
      BaseNameUnique(a, m1, b, m2);
    }
  }
}
