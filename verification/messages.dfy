/**
 * The end-of-run message accumulator of a multi-package command
 * (Library/Homebrew/messages.rb): caveats, install times and caught
 * exceptions are collected while packages are processed, then shown or
 * re-raised together. Console output is modelled as a list of lines.
 */
module Messages {
  import opened Wrappers
  import opened Strings

  datatype Caveat = Caveat(package: string, caveats: string)

  /** An install time record; the elapsed seconds are kept as a real number. */
  datatype InstallTime = InstallTime(package: string, time: real)

  /** An exception: its class and its message. */
  datatype Exception = Exception(klass: string, message: string)

  datatype Messages = Messages(
    caveats: seq<Caveat>,
    packageCount: nat,
    installTimes: seq<InstallTime>,
    caught: seq<Exception>)

  /** `initialize`: nothing recorded yet. */
  function Fresh(): (m: Messages)
    ensures m.packageCount == 0 && m.caveats == [] && m.installTimes == [] && m.caught == []
  {
    Messages([], 0, [], [])
  }

  /** `record_caveats`: one more caveat entry at the end; nothing else changes. */
  function RecordCaveats(m: Messages, package: string, caveats: string): (r: Messages)
    ensures |r.caveats| == |m.caveats| + 1 && r.caveats[..|m.caveats|] == m.caveats
    ensures r.caveats[|m.caveats|] == Caveat(package, caveats)
    ensures r.packageCount == m.packageCount && r.installTimes == m.installTimes && r.caught == m.caught
  {
    m.(caveats := m.caveats + [Caveat(package, caveats)])
  }

  /** `package_installed`: the count goes up by one and one time record is appended. */
  function PackageInstalled(m: Messages, package: string, elapsed: real): (r: Messages)
    ensures r.packageCount == m.packageCount + 1
    ensures |r.installTimes| == |m.installTimes| + 1 && r.installTimes[..|m.installTimes|] == m.installTimes
    ensures r.installTimes[|m.installTimes|] == InstallTime(package, elapsed)
    ensures r.caveats == m.caveats && r.caught == m.caught
  {
    m.(packageCount := m.packageCount + 1, installTimes := m.installTimes + [InstallTime(package, elapsed)])
  }

  /**
   * The outcome of `catch_exception`: the new state, the error line shown
   * (when `display_message` is set) and the value of the global failed flag.
   */
  datatype Caught = Caught(messages: Messages, shown: Nilable<string>, failed: bool)

  /**
   * `catch_exception`: a copy of the exception, of the same class, whose
   * message is prefixed with the package, is appended to the caught list.
   */
  function CatchException(m: Messages, package: string, e: Exception, displayMessage: bool): (c: Caught)
    ensures c.failed
    ensures |c.messages.caught| == |m.caught| + 1 && c.messages.caught[..|m.caught|] == m.caught
    ensures var x := c.messages.caught[|m.caught|];
            x.klass == e.klass && StartsWith(x.message, package + ": ") && x.message[|package| + 2..] == e.message
    ensures displayMessage <==> c.shown.Some?
    ensures c.shown.Some? ==> c.shown.value == c.messages.caught[|m.caught|].message
    ensures c.messages.caveats == m.caveats && c.messages.packageCount == m.packageCount
    ensures c.messages.installTimes == m.installTimes
  {
    var prefix := package + ": ";
    var x := Exception(e.klass, prefix + e.message);
    assert x.message[..|prefix|] == prefix;
    assert x.message[|prefix|..] == e.message;
    Caught(m.(caught := m.caught + [x]), if displayMessage then Some(x.message) else Nil, true)
  }

  // ---------------------------------------------------------------------------
  // Display

  /** A console line: an `oh1` heading, an `ohai` title with its body, or one install-time row. */
  datatype Line = Heading(text: string) | Titled(title: string, body: string) | TimeRow(package: string, time: real)

  function CaveatLines(cs: seq<Caveat>): (r: seq<Line>)
    ensures |r| == |cs|
    ensures forall i :: 0 <= i < |cs| ==> r[i] == Titled(cs[i].package, cs[i].caveats)
  {
    seq(|cs|, i requires 0 <= i < |cs| => Titled(cs[i].package, cs[i].caveats))
  }

  /**
   * `display_caveats`: nothing when at most one package was installed or no
   * caveats were recorded; otherwise a heading, then every caveat in order.
   */
  function DisplayCaveats(m: Messages): (r: seq<Line>)
    ensures r == [] <==> m.packageCount <= 1 || m.caveats == []
    ensures r != [] ==> r[0] == Heading("Caveats") && r[1..] == CaveatLines(m.caveats)
  {
    if m.packageCount <= 1 || m.caveats == [] then []
    else [Heading("Caveats")] + CaveatLines(m.caveats)
  }

  function TimeLines(ts: seq<InstallTime>): (r: seq<Line>)
    ensures |r| == |ts|
    ensures forall i :: 0 <= i < |ts| ==> r[i] == TimeRow(ts[i].package, ts[i].time)
  {
    seq(|ts|, i requires 0 <= i < |ts| => TimeRow(ts[i].package, ts[i].time))
  }

  /**
   * `display_install_times`: nothing without install times (whatever the
   * package count); otherwise a heading, then one row per record in order.
   */
  function DisplayInstallTimes(m: Messages): (r: seq<Line>)
    ensures r == [] <==> m.installTimes == []
    ensures r != [] ==> r[0] == Heading("Installation times") && r[1..] == TimeLines(m.installTimes)
  {
    if m.installTimes == [] then []
    else [Heading("Installation times")] + TimeLines(m.installTimes)
  }

  /** `display_messages`: the caveats, then the install times when asked for. */
  function DisplayMessages(m: Messages, displayTimes: bool): (r: seq<Line>)
    ensures |r| >= |DisplayCaveats(m)| && r[..|DisplayCaveats(m)|] == DisplayCaveats(m)
    ensures !displayTimes ==> r == DisplayCaveats(m)
    ensures displayTimes ==> r[|DisplayCaveats(m)|..] == DisplayInstallTimes(m)
  {
    var caveats := DisplayCaveats(m);
    var r := caveats + (if displayTimes then DisplayInstallTimes(m) else []);
    assert r[..|caveats|] == caveats;
    r
  }

  // ---------------------------------------------------------------------------
  // Raising

  /** What `raise_caught_exceptions` does: nothing, re-raise one exception, or raise `MultiplePackageErrors` over all. */
  datatype Raise = NoRaise | RaiseSingle(e: Exception) | RaiseMultiple(errors: seq<Exception>)

  function RaiseCaughtExceptions(m: Messages): (r: Raise)
    ensures r.NoRaise? <==> m.packageCount <= 1 || m.caught == []
    ensures r.RaiseSingle? ==> |m.caught| == 1 && r.e == m.caught[0]
    ensures r.RaiseMultiple? ==> |m.caught| > 1 && r.errors == m.caught
    ensures m.packageCount > 1 && |m.caught| == 1 ==> r.RaiseSingle?
    ensures m.packageCount > 1 && |m.caught| > 1 ==> r.RaiseMultiple?
  {
    if m.packageCount <= 1 || m.caught == [] then NoRaise
    else if |m.caught| > 1 then RaiseMultiple(m.caught)
    else RaiseSingle(m.caught[0])
  }

  // ---------------------------------------------------------------------------
  // A whole run

  /** One call made on the accumulator during a run. */
  datatype Event =
    | CaveatsRecorded(package: string, caveats: string)
    | Installed(package: string, elapsed: real)
    | ExceptionCaught(package: string, e: Exception, displayMessage: bool)

  /** The state and the failed flag after applying `events` in order to `m`. */
  function Run(m: Messages, failed: bool, events: seq<Event>): (r: (Messages, bool))
    decreases |events|
  {
    if |events| == 0 then (m, failed)
    else
      var ev := events[0];
      match ev
      case CaveatsRecorded(p, c) => Run(RecordCaveats(m, p, c), failed, events[1..])
      case Installed(p, t) => Run(PackageInstalled(m, p, t), failed, events[1..])
      case ExceptionCaught(p, e, d) => Run(CatchException(m, p, e, d).messages, true, events[1..])
  }

  function CountInstalled(events: seq<Event>): nat
  {
    if |events| == 0 then 0 else (if events[0].Installed? then 1 else 0) + CountInstalled(events[1..])
  }

  function CountCaught(events: seq<Event>): nat
  {
    if |events| == 0 then 0 else (if events[0].ExceptionCaught? then 1 else 0) + CountCaught(events[1..])
  }

  function CountCaveats(events: seq<Event>): nat
  {
    if |events| == 0 then 0 else (if events[0].CaveatsRecorded? then 1 else 0) + CountCaveats(events[1..])
  }

  /**
   * After a run the package count, the caveats, the install times and the
   * caught exceptions each grew by the number of matching calls, and the
   * failed flag is set exactly when it was before or an exception was caught.
   */
  lemma {:induction false} RunCounts(m: Messages, failed: bool, events: seq<Event>)
    ensures var (r, f) := Run(m, failed, events);
            && r.packageCount == m.packageCount + CountInstalled(events)
            && |r.installTimes| == |m.installTimes| + CountInstalled(events)
            && |r.caveats| == |m.caveats| + CountCaveats(events)
            && |r.caught| == |m.caught| + CountCaught(events)
            && (f <==> failed || CountCaught(events) > 0)
    decreases |events|
  {
    if |events| > 0 {
      var ev := events[0];
      match ev
      case CaveatsRecorded(p, c) => RunCounts(RecordCaveats(m, p, c), failed, events[1..]);
      case Installed(p, t) => RunCounts(PackageInstalled(m, p, t), failed, events[1..]);
      case ExceptionCaught(p, e, d) => RunCounts(CatchException(m, p, e, d).messages, true, events[1..]);
    }
  }

  /**
   * A run from a fresh accumulator that installed at most one package
   * neither shows caveats nor re-raises: a single-package command reports
   * its own problems directly.
   */
  lemma SinglePackageRunIsQuiet(events: seq<Event>)
    requires CountInstalled(events) <= 1
    ensures var (r, _) := Run(Fresh(), false, events);
            DisplayCaveats(r) == [] && RaiseCaughtExceptions(r) == NoRaise
  {
    RunCounts(Fresh(), false, events);
  }

  /**
   * A run from a fresh accumulator that installed several packages and
   * caught at least one exception raises: the single exception itself, or
   * all of them together.
   */
  lemma MultiPackageRunRaises(events: seq<Event>)
    requires CountInstalled(events) > 1 && CountCaught(events) > 0
    ensures var (r, f) := Run(Fresh(), false, events);
            f && !RaiseCaughtExceptions(r).NoRaise?
            && (CountCaught(events) == 1 <==> RaiseCaughtExceptions(r).RaiseSingle?)
  {
    RunCounts(Fresh(), false, events);
  }
}
