/**
 * The checker's state machine (`checkForUpdates`, `getCurrentState`,
 * `#formatComponentStatuses`). The checker keeps the previous and the current
 * snapshot and the dedup cache; one check reads the page once, and either
 * leaves everything as it was (the fetch failed), takes the first snapshot
 * (an initial report), or diffs the previous snapshot against the new one.
 */
module Checker {
  import opened Options
  import opened TextUtil
  import opened Entries
  import opened StatusTypes
  import Extraction
  import Dedup
  import Differ

  datatype Checker = Checker(previous: Option<Snapshot>, current: Option<Snapshot>, recent: Dedup.Cache)

  /** What a check returns: `null`, the `initial` report, or the list of change events. */
  datatype Report =
    | Silent
    | Initial(message: string, timestamp: string)
    | Changes(events: seq<ChangeEvent>)

  datatype Step = Step(report: Report, next: Checker)

  /** The constructor: nothing seen yet and an empty cache, which is a reachable state. */
  function Init(): (ch: Checker)
    ensures Inv(ch)
    ensures GetCurrentState(ch).None? && ch.previous.None? && ch.recent == []
  {
    Checker(None, None, [])
  }

  /** The state every reachable checker is in. */
  predicate Inv(ch: Checker) {
    && ch.previous == ch.current
    && Dedup.Valid(ch.recent)
    && (ch.current.Some? ==> WellFormed(ch.current.value))
  }

  function ComponentLine(entry: (string, ComponentState)): string {
    entry.0 + ": " + entry.1.status
  }

  /** `name: status`, one line per component in insertion order. */
  function FormatComponentStatuses(components: Components): (r: string)
    ensures r == [] <==> |components| == 0
    ensures |components| > 0 ==> |ComponentLine(components[0])| <= |r| && r[..|ComponentLine(components[0])|] == ComponentLine(components[0])
  {
    var lines := seq(|components|, i requires 0 <= i < |components| => ComponentLine(components[i]));
    JoinNonEmpty(lines, "\n");
    assert |components| > 0 ==> lines[0] != [];
    Join(lines, "\n")
  }

  /** The report lists one line per component, recoverable by splitting on newlines when no name or status holds one. */
  lemma ComponentStatusLines(components: Components)
    requires |components| > 0
    requires forall i :: 0 <= i < |components| ==> '\n' !in components[i].0 && '\n' !in components[i].1.status
    ensures var lines := Split(FormatComponentStatuses(components), '\n');
            && |lines| == |components|
            && forall i :: 0 <= i < |components| ==> lines[i] == components[i].0 + ": " + components[i].1.status
  {
    var lines := seq(|components|, i requires 0 <= i < |components| => ComponentLine(components[i]));
    forall i | 0 <= i < |lines| ensures '\n' !in lines[i] {
      assert lines[i] == components[i].0 + ": " + components[i].1.status;
    }
    SplitJoin(lines, '\n');
  }

  const InitialBanner: string := "Status monitoring initialized."
  const StatusLabel: string := "Current Status: "

  /** The `initial` report: a banner line, the overall description, then the component lines. */
  function InitialMessage(s: Snapshot): (r: string)
    ensures var head := InitialBanner + "\n" + StatusLabel + s.overall.description + "\n";
            |head| <= |r| && r[..|head|] == head && r[|head|..] == FormatComponentStatuses(s.components)
  {
    "Status monitoring initialized.\nCurrent Status: " + s.overall.description + "\n" + FormatComponentStatuses(s.components)
  }

  /**
   * Read line by line, the `initial` report is the banner, the status line,
   * and one `name: status` line per component, when neither the description
   * nor any name or status holds a newline.
   */
  lemma InitialMessageLines(s: Snapshot)
    requires '\n' !in s.overall.description && |s.components| > 0
    requires forall i :: 0 <= i < |s.components| ==> '\n' !in s.components[i].0 && '\n' !in s.components[i].1.status
    ensures var lines := Split(InitialMessage(s), '\n');
            && |lines| == |s.components| + 2
            && lines[0] == InitialBanner && lines[1] == StatusLabel + s.overall.description
            && forall i :: 0 <= i < |s.components| ==> lines[i + 2] == s.components[i].0 + ": " + s.components[i].1.status
  {
    var body := FormatComponentStatuses(s.components);
    var status := StatusLabel + s.overall.description;
    MessageShape(s.overall.description, body);
    SplitCons(InitialBanner, '\n', status + ['\n'] + body);
    SplitCons(status, '\n', body);
    ComponentStatusLines(s.components);
  }

  lemma MessageShape(description: string, body: string)
    requires '\n' !in description
    ensures "Status monitoring initialized.\nCurrent Status: " + description + "\n" + body
            == InitialBanner + ['\n'] + (StatusLabel + description + ['\n'] + body)
    ensures '\n' !in InitialBanner && '\n' !in StatusLabel + description
  {
    var status := StatusLabel + description;
    assert |"Status monitoring initialized.\nCurrent Status: " + description + "\n" + body|
           == |InitialBanner + ['\n'] + (status + ['\n'] + body)|;
    forall i | 0 <= i < |status| ensures status[i] != '\n' {
      if i >= |StatusLabel| { assert status[i] == description[i - |StatusLabel|]; }
    }
  }

  /** `getCurrentState()`: the latest snapshot, if any fetch has succeeded. */
  function GetCurrentState(ch: Checker): (r: Option<Snapshot>)
    ensures Inv(ch) ==> r == ch.previous
  {
    ch.current
  }

  /**
   * `checkForUpdates()`. `page` is the document the fetch produced, or `None`
   * when the request or the parse failed.
   */
  function CheckForUpdates(ch: Checker, page: Option<Extraction.Document>, allowed: set<string>,
                           clock: Clock, parseDate: Extraction.DateParser): (r: Step)
    ensures page.None? ==> r.report.Silent? && r.next == ch
    ensures page.Some? ==> r.next.current == r.next.previous == Some(Extraction.ExtractSnapshot(page.value, allowed, clock, parseDate))
    ensures page.Some? && ch.previous.None? ==>
              r.report == Initial(InitialMessage(r.next.current.value), clock.iso) && r.next.recent == ch.recent
    ensures r.report.Changes? ==> ch.previous.Some? && |r.report.events| > 0
    ensures Dedup.Valid(ch.recent) ==> Dedup.Valid(r.next.recent)
  {
    match page
    case None => Step(Silent, ch)
    case Some(doc) =>
      var snapshot := Extraction.ExtractSnapshot(doc, allowed, clock, parseDate);
      match ch.previous
      case None => Step(Initial(InitialMessage(snapshot), snapshot.timestamp), Checker(Some(snapshot), Some(snapshot), ch.recent))
      case Some(previous) =>
        var diff := Differ.CompareStates(previous, snapshot, ch.recent, clock);
        var report := match diff.events case None => Silent case Some(events) => Changes(events);
        Step(report, Checker(Some(snapshot), Some(snapshot), diff.cache))
  }

  /** Every check keeps the invariant. */
  lemma CheckPreservesInv(ch: Checker, page: Option<Extraction.Document>, allowed: set<string>,
                          clock: Clock, parseDate: Extraction.DateParser)
    requires Inv(ch)
    ensures Inv(CheckForUpdates(ch, page, allowed, clock, parseDate).next)
  {
  }

  /** A later check reports exactly the differ's events between the snapshot held and the new one. */
  lemma LaterCheckDiffs(ch: Checker, doc: Extraction.Document, allowed: set<string>,
                        clock: Clock, parseDate: Extraction.DateParser)
    requires ch.previous.Some?
    ensures var r := CheckForUpdates(ch, Some(doc), allowed, clock, parseDate);
            var diff := Differ.CompareStates(ch.previous.value, Extraction.ExtractSnapshot(doc, allowed, clock, parseDate), ch.recent, clock);
            && r.next.recent == diff.cache
            && (diff.events.None? <==> r.report.Silent?)
            && (diff.events.Some? ==> r.report == Changes(diff.events.value))
  {
  }

  /** Once a snapshot is held, a failed fetch followed by a good one behaves as the good one alone. */
  lemma FailedFetchIsInvisible(ch: Checker, doc: Extraction.Document, allowed: set<string>,
                               clock: Clock, parseDate: Extraction.DateParser)
    ensures var failed := CheckForUpdates(ch, None, allowed, clock, parseDate);
            CheckForUpdates(failed.next, Some(doc), allowed, clock, parseDate) == CheckForUpdates(ch, Some(doc), allowed, clock, parseDate)
  {
  }

  /** Two readings of one page agree on every component's status. */
  lemma ComponentReadingsAlike(doc: Extraction.Document, allowed: set<string>, earlier: Clock, clock: Clock, parseDate: Extraction.DateParser)
    ensures var was, now := Extraction.ExtractSnapshot(doc, allowed, earlier, parseDate), Extraction.ExtractSnapshot(doc, allowed, clock, parseDate);
            forall i :: 0 <= i < |now.components| ==> !Differ.ComponentChanged(was.components, now.components[i])
  {
    var c1 := Extraction.ParseComponents(doc.components, allowed, earlier.iso);
    var c2 := Extraction.ParseComponents(doc.components, allowed, clock.iso);
    forall i | 0 <= i < |c2| ensures !Differ.ComponentChanged(c1, c2[i]) {
      Extraction.ComponentIgnoresClock(doc.components, allowed, earlier.iso, clock.iso, i);
    }
    assert Extraction.ExtractSnapshot(doc, allowed, earlier, parseDate).components == c1;
    assert Extraction.ExtractSnapshot(doc, allowed, clock, parseDate).components == c2;
  }

  /** Two readings of one page whose incidents all have permalinks agree on every incident's id, status and update count. */
  lemma IncidentReadingsAlike(doc: Extraction.Document, allowed: set<string>, earlier: Clock, clock: Clock, parseDate: Extraction.DateParser)
    requires forall n :: n in Extraction.AllIncidentNodes(doc.days) ==> Extraction.HasPermalink(n)
    ensures var was, now := Extraction.ExtractSnapshot(doc, allowed, earlier, parseDate), Extraction.ExtractSnapshot(doc, allowed, clock, parseDate);
            Differ.Alike(was.incidents, now.incidents)
  {
    Extraction.IncidentsIgnoreClock(doc.days, earlier, clock, parseDate);
  }

  /**
   * Re-reading an unchanged page is silent: when the page that produced the
   * held snapshot is read again at any later instant, the check reports
   * nothing and the cache is untouched, provided every incident has a
   * permalink and incidents sharing one agree.
   */
  lemma UnchangedPageIsSilent(ch: Checker, doc: Extraction.Document, allowed: set<string>,
                              earlier: Clock, clock: Clock, parseDate: Extraction.DateParser)
    requires ch.previous == Some(Extraction.ExtractSnapshot(doc, allowed, earlier, parseDate))
    requires forall n :: n in Extraction.AllIncidentNodes(doc.days) ==> Extraction.HasPermalink(n)
    requires Differ.ConsistentIds(Extraction.ExtractSnapshot(doc, allowed, clock, parseDate).incidents)
    ensures var r := CheckForUpdates(ch, Some(doc), allowed, clock, parseDate);
            r.report == Silent && r.next.recent == ch.recent
  {
    ComponentReadingsAlike(doc, allowed, earlier, clock, parseDate);
    IncidentReadingsAlike(doc, allowed, earlier, clock, parseDate);
    Differ.AlikeDiffIsNull(ch.previous.value, Extraction.ExtractSnapshot(doc, allowed, clock, parseDate), ch.recent, clock);
    LaterCheckDiffs(ch, doc, allowed, clock, parseDate);
  }

  /**
   * An incident without a permalink is keyed by the instant it is read, so
   * the same unchanged page read at another millisecond reports it as new
   * and its previous reading as resolved.
   */
  lemma PermalinkFreeIncidentChurns(ch: Checker, doc: Extraction.Document, allowed: set<string>,
                                    earlier: Clock, clock: Clock, parseDate: Extraction.DateParser)
    requires ch.previous == Some(Extraction.ExtractSnapshot(doc, allowed, earlier, parseDate))
    requires |Extraction.AllIncidentNodes(doc.days)| == 1 && Extraction.AllIncidentNodes(doc.days)[0].href.None?
    requires earlier.millis != clock.millis
    ensures var r := CheckForUpdates(ch, Some(doc), allowed, clock, parseDate);
            var n := Extraction.AllIncidentNodes(doc.days)[0];
            && r.report.Changes?
            && NewIncident(Extraction.ParseIncident(n, clock, parseDate)) in r.report.events
            && IncidentResolved(Differ.ResolvedCopy(Extraction.ParseIncident(n, earlier, parseDate), clock.iso)) in r.report.events
  {
    var n := Extraction.AllIncidentNodes(doc.days)[0];
    LoneIncidentReading(doc, allowed, earlier, parseDate);
    LoneIncidentReading(doc, allowed, clock, parseDate);
    Extraction.IncidentWithoutPermalinkMoves(n, earlier, clock, parseDate);
    Differ.RenamedIncidentChurns(ch.previous.value, Extraction.ExtractSnapshot(doc, allowed, clock, parseDate), ch.recent, clock);
    LaterCheckDiffs(ch, doc, allowed, clock, parseDate);
  }

  lemma LoneIncidentReading(doc: Extraction.Document, allowed: set<string>, clock: Clock, parseDate: Extraction.DateParser)
    requires |Extraction.AllIncidentNodes(doc.days)| == 1
    ensures Extraction.ExtractSnapshot(doc, allowed, clock, parseDate).incidents
            == [Extraction.ParseIncident(Extraction.AllIncidentNodes(doc.days)[0], clock, parseDate)]
  {
    Extraction.ParseIncidentsFlat(doc.days, clock, parseDate);
  }
}
