/**
 * The snapshot differ (`#compareStates`, `#compareComponents`,
 * `#compareIncidents`). It is written in three stages whose composition is the
 * checker's single pass:
 *   1. the status and component events a change calls for (pure);
 *   2. those events passed through the dedup cache in order, dropping the
 *      ones `#isDuplicate` reports (the checker makes exactly these calls in
 *      exactly this order while it builds its list);
 *   3. the incident events, which are never deduplicated.
 */
module Differ {
  import opened Options
  import opened Entries
  import opened StatusTypes
  import Dedup

  function StatusMessage(description: string): string {
    "System status changed to: " + description
  }

  function ComponentMessage(name: string, status: string): string {
    name + " status changed to: " + status
  }

  /** A component calls for an event when it is new or its status text changed. */
  predicate ComponentChanged(previous: Components, entry: (string, ComponentState)) {
    match Find(previous, entry.0)
    case None => true
    case Some(was) => was.status != entry.1.status
  }

  function ComponentEvent(entry: (string, ComponentState)): ChangeEvent {
    ComponentUpdate(ComponentMessage(entry.0, entry.1.status), entry.1.timestamp, entry.0)
  }

  /** The component events, one per changed current component, in current order. */
  function ComponentCandidates(previous: Components, current: Components): (r: seq<ChangeEvent>)
    ensures |r| <= |current|
    ensures forall e :: e in r ==> e.ComponentUpdate?
    ensures forall e :: e in r ==> exists i :: 0 <= i < |current| && ComponentChanged(previous, current[i]) && e == ComponentEvent(current[i])
    ensures forall i :: 0 <= i < |current| && ComponentChanged(previous, current[i]) ==> ComponentEvent(current[i]) in r
  {
    if |current| == 0 then []
    else
      var rest := ComponentCandidates(previous, current[1..]);
      assert forall i :: 1 <= i < |current| ==> current[i] == current[1..][i - 1];
      (if ComponentChanged(previous, current[0]) then [ComponentEvent(current[0])] else []) + rest
  }

  /** The component events follow the order of the current components. */
  lemma {:induction false} ComponentCandidatesAppend(previous: Components, a: Components, b: Components)
    ensures ComponentCandidates(previous, a + b) == ComponentCandidates(previous, a) + ComponentCandidates(previous, b)
  {
    if |a| == 0 {
      assert a + b == b;
    } else {
      assert (a + b)[0] == a[0];
      assert (a + b)[1..] == a[1..] + b;
      ComponentCandidatesAppend(previous, a[1..], b);
    }
  }

  /** A component that is the same in both snapshots calls for no event, whatever its position. */
  lemma {:induction false} UnchangedComponentsQuiet(previous: Components, current: Components)
    requires forall i :: 0 <= i < |current| ==> !ComponentChanged(previous, current[i])
    ensures ComponentCandidates(previous, current) == []
  {
    if |current| > 0 {
      UnchangedComponentsQuiet(previous, current[1..]);
    }
  }

  /** The status event, if the description text changed, followed by the component events. */
  function StatusCandidates(previous: Snapshot, current: Snapshot): (r: seq<ChangeEvent>)
    ensures forall e :: e in r ==> Deduplicable(e)
    ensures r == (if previous.overall.description != current.overall.description
                  then [StatusChange(StatusMessage(current.overall.description), current.timestamp, current.overall.level)]
                  else [])
                 + ComponentCandidates(previous.components, current.components)
  {
    (if previous.overall.description != current.overall.description
     then [StatusChange(StatusMessage(current.overall.description), current.timestamp, current.overall.level)]
     else [])
    + ComponentCandidates(previous.components, current.components)
  }

  /** The events the dedup cache applies to: the status and component events. */
  predicate Deduplicable(e: ChangeEvent) {
    e.StatusChange? || e.ComponentUpdate?
  }

  /** The message and timestamp `#isDuplicate` is called with (incident events carry none). */
  function Note(e: ChangeEvent): (string, string) {
    match e
    case StatusChange(message, timestamp, _) => (message, timestamp)
    case ComponentUpdate(message, timestamp, _) => (message, timestamp)
    case _ => ("", "")
  }

  function DedupKey(e: ChangeEvent): string {
    Dedup.Key(Note(e).0, Note(e).1)
  }

  datatype Filtered = Filtered(kept: seq<ChangeEvent>, cache: Dedup.Cache)

  /** The events in order through `#isDuplicate`, keeping those it does not report as duplicates. */
  function Suppress(cache: Dedup.Cache, events: seq<ChangeEvent>, now: int): (r: Filtered)
    ensures Dedup.Valid(cache) ==> Dedup.Valid(r.cache)
    ensures |r.kept| <= |events|
    ensures forall e :: e in r.kept ==> e in events
    ensures |events| == 0 ==> r.cache == cache && r.kept == []
    decreases |events|
  {
    if |events| == 0 then Filtered([], cache)
    else
      var v := Dedup.IsDuplicate(cache, Note(events[0]).0, Note(events[0]).1, now);
      var rest := Suppress(v.cache, events[1..], now);
      assert forall e :: e in rest.kept ==> e in events;
      Filtered((if v.duplicate then [] else [events[0]]) + rest.kept, rest.cache)
  }

  /**
   * The events go through the cache one after another: filtering a
   * concatenation filters the first part, then the second part against the
   * cache the first part left.
   */
  lemma {:induction false} SuppressAppend(cache: Dedup.Cache, a: seq<ChangeEvent>, b: seq<ChangeEvent>, now: int)
    ensures var fa := Suppress(cache, a, now);
            var fb := Suppress(fa.cache, b, now);
            Suppress(cache, a + b, now) == Filtered(fa.kept + fb.kept, fb.cache)
    decreases |a|
  {
    if |a| == 0 {
      assert a + b == b;
    } else {
      var e, t := a[0], a[1..];
      assert a == [e] + t;
      assert a + b == [e] + (t + b);
      var c1, head := SuppressCons(cache, e, t, now);
      var _, _ := SuppressCons(cache, e, t + b, now);
      SuppressAppend(c1, t, b, now);
      var fa1 := Suppress(c1, t, now);
      FilteredChain(Suppress(cache, [e] + (t + b), now), Suppress(c1, t + b, now), Suppress(cache, [e] + t, now),
                    fa1, Suppress(fa1.cache, b, now), head);
    }
  }

  /** One step of the filter: the first event's verdict, then the rest against the cache that call left. */
  lemma SuppressCons(cache: Dedup.Cache, e: ChangeEvent, t: seq<ChangeEvent>, now: int) returns (c1: Dedup.Cache, head: seq<ChangeEvent>)
    ensures var v := Dedup.IsDuplicate(cache, Note(e).0, Note(e).1, now);
            c1 == v.cache && head == (if v.duplicate then [] else [e])
    ensures Suppress(cache, [e] + t, now) == Filtered(head + Suppress(c1, t, now).kept, Suppress(c1, t, now).cache)
  {
    var v := Dedup.IsDuplicate(cache, Note(e).0, Note(e).1, now);
    c1, head := v.cache, if v.duplicate then [] else [e];
    assert ([e] + t)[0] == e && ([e] + t)[1..] == t;
  }

  /** A single event is kept exactly when `#isDuplicate` does not report it, and the cache is the one that call leaves. */
  lemma SuppressOne(cache: Dedup.Cache, e: ChangeEvent, now: int)
    ensures var v := Dedup.IsDuplicate(cache, Note(e).0, Note(e).1, now);
            Suppress(cache, [e], now) == Filtered(if v.duplicate then [] else [e], v.cache)
  {
    assert [e] + [] == [e];
    var c1, head := SuppressCons(cache, e, [], now);
    assert head + [] == head;
  }

  /** The bookkeeping of one step of `SuppressAppend`, over plain values. */
  lemma FilteredChain(whole: Filtered, rest: Filtered, fa: Filtered, fa1: Filtered, fb: Filtered, head: seq<ChangeEvent>)
    requires whole == Filtered(head + rest.kept, rest.cache)
    requires rest == Filtered(fa1.kept + fb.kept, fb.cache)
    requires fa == Filtered(head + fa1.kept, fa1.cache)
    ensures whole == Filtered(fa.kept + fb.kept, fb.cache)
  {
    ConcatAssoc(head, fa1.kept, fb.kept);
  }

  /**
   * The event at position `k` is kept exactly when `#isDuplicate`, called on
   * the cache the earlier events left, does not report it: what gets through
   * is what got through before it, then the event unless it is a duplicate,
   * then the rest filtered against the cache that call left.
   */
  lemma SuppressAt(cache: Dedup.Cache, before: seq<ChangeEvent>, e: ChangeEvent, after: seq<ChangeEvent>, now: int)
    ensures var fb := Suppress(cache, before, now);
            var v := Dedup.IsDuplicate(fb.cache, Note(e).0, Note(e).1, now);
            Suppress(cache, before + [e] + after, now).kept
              == fb.kept + (if v.duplicate then [] else [e]) + Suppress(v.cache, after, now).kept
  {
    var fb := Suppress(cache, before, now);
    assert before + [e] + after == before + ([e] + after);
    SuppressAppend(cache, before, [e] + after, now);
    var c1, head := SuppressCons(fb.cache, e, after, now);
    ConcatAssoc(fb.kept, head, Suppress(c1, after, now).kept);
  }

  /** The keys of a batch are pairwise different. */
  predicate DistinctDedupKeys(events: seq<ChangeEvent>) {
    forall i, j :: 0 <= i < j < |events| ==> DedupKey(events[i]) != DedupKey(events[j])
  }

  /** A batch none of whose keys is recorded yet. */
  predicate Fresh(cache: Dedup.Cache, events: seq<ChangeEvent>) {
    forall i :: 0 <= i < |events| ==> !HasKey(cache, DedupKey(events[i]))
  }

  /** Events never seen before, with different keys, all get through. */
  lemma {:induction false} SuppressKeepsFresh(cache: Dedup.Cache, events: seq<ChangeEvent>, now: int)
    requires DistinctDedupKeys(events) && Fresh(cache, events)
    ensures Suppress(cache, events, now).kept == events
    decreases |events|
  {
    if |events| > 0 {
      var c1 := FreshHead(cache, events, now);
      SuppressKeepsFresh(c1, events[1..], now);
    }
  }

  /** The first of a fresh batch gets through, and the rest meet the cache it leaves in the same condition. */
  lemma FreshHead(cache: Dedup.Cache, events: seq<ChangeEvent>, now: int) returns (c1: Dedup.Cache)
    requires |events| > 0
    requires DistinctDedupKeys(events) && Fresh(cache, events)
    ensures DistinctDedupKeys(events[1..]) && Fresh(c1, events[1..])
    ensures Suppress(c1, events[1..], now).kept == events[1..] ==> Suppress(cache, events, now).kept == events
  {
    FreshStep(cache, events, now);
    SuppressHead(cache, events, now);
    c1 := Dedup.IsDuplicate(cache, Note(events[0]).0, Note(events[0]).1, now).cache;
  }

  /** When the first event is not a duplicate, it heads what gets through. */
  lemma SuppressHead(cache: Dedup.Cache, events: seq<ChangeEvent>, now: int)
    requires |events| > 0
    requires !Dedup.IsDuplicate(cache, Note(events[0]).0, Note(events[0]).1, now).duplicate
    ensures var c1 := Dedup.IsDuplicate(cache, Note(events[0]).0, Note(events[0]).1, now).cache;
            Suppress(c1, events[1..], now).kept == events[1..] ==> Suppress(cache, events, now).kept == events
  {
    assert events == [events[0]] + events[1..];
  }

  /** The first of a fresh batch is reported, and the rest are still fresh afterwards. */
  lemma FreshStep(cache: Dedup.Cache, events: seq<ChangeEvent>, now: int)
    requires |events| > 0
    requires DistinctDedupKeys(events) && Fresh(cache, events)
    ensures var v := Dedup.IsDuplicate(cache, Note(events[0]).0, Note(events[0]).1, now);
            && !v.duplicate
            && DistinctDedupKeys(events[1..])
            && Fresh(v.cache, events[1..])
  {
    var v := Dedup.IsDuplicate(cache, Note(events[0]).0, Note(events[0]).1, now);
    assert !HasKey(cache, DedupKey(events[0]));
    forall i | 0 <= i < |events[1..]| ensures !HasKey(v.cache, DedupKey(events[1..][i])) {
      assert events[1..][i] == events[i + 1];
      assert DedupKey(events[i + 1]) != DedupKey(events[0]);
      Dedup.OnlyOwnKeyAdded(cache, Note(events[0]).0, Note(events[0]).1, now, DedupKey(events[i + 1]));
    }
  }

  /** The new and updated incidents, in current order. */
  predicate IncidentDiffers(was: Incident, inc: Incident) {
    was.status != inc.status || |was.updates| != |inc.updates|
  }

  function IncidentChange(previous: seq<Incident>, inc: Incident): seq<ChangeEvent> {
    match FirstWithId(previous, inc.id)
    case None => [NewIncident(inc)]
    case Some(was) => if IncidentDiffers(was, inc) then [IncidentUpdate(inc)] else []
  }

  function NewOrUpdated(previous: seq<Incident>, current: seq<Incident>): (r: seq<ChangeEvent>)
    ensures |r| <= |current|
    ensures forall e :: e in r ==> (e.NewIncident? || e.IncidentUpdate?) && e.incident in current
    ensures forall inc :: NewIncident(inc) in r <==> inc in current && inc.id !in Ids(previous)
    ensures forall inc :: IncidentUpdate(inc) in r <==>
              inc in current && inc.id in Ids(previous) && IncidentDiffers(FirstWithId(previous, inc.id).value, inc)
  {
    if |current| == 0 then []
    else
      var rest := NewOrUpdated(previous, current[1..]);
      assert forall inc :: inc in current <==> inc == current[0] || inc in current[1..];
      IncidentChange(previous, current[0]) + rest
  }

  lemma {:induction false} NewOrUpdatedAppend(previous: seq<Incident>, a: seq<Incident>, b: seq<Incident>)
    ensures NewOrUpdated(previous, a + b) == NewOrUpdated(previous, a) + NewOrUpdated(previous, b)
  {
    if |a| == 0 {
      assert a + b == b;
    } else {
      assert (a + b)[0] == a[0];
      assert (a + b)[1..] == a[1..] + b;
      NewOrUpdatedAppend(previous, a[1..], b);
    }
  }

  /** `new Set(ids)` iterated: each id once, in order of first occurrence. */
  function UniqueIds(ids: seq<string>): (r: seq<string>)
    ensures forall x :: x in r <==> x in ids
    ensures forall i, j :: 0 <= i < j < |r| ==> r[i] != r[j]
    ensures forall i, j :: 0 <= i < j < |r| ==> FirstIndex(ids, r[i]).value < FirstIndex(ids, r[j]).value
  {
    if |ids| == 0 then []
    else
      var init := ids[..|ids| - 1];
      var last := ids[|ids| - 1];
      var u := UniqueIds(init);
      assert ids == init + [last];
      FirstIndexSnoc(init, last);
      if last in u then u
      else
        var r := u + [last];
        assert FirstIndex(ids, last).value == |ids| - 1;
        r
  }

  /** The ids that disappeared, once each, in order of first occurrence in the previous list. */
  function Gone(uniquePrevious: seq<string>, currentIds: seq<string>): (r: seq<string>)
    ensures forall x :: x in r <==> x in uniquePrevious && x !in currentIds
    ensures (forall i, j :: 0 <= i < j < |uniquePrevious| ==> uniquePrevious[i] != uniquePrevious[j])
            ==> forall i, j :: 0 <= i < j < |r| ==> r[i] != r[j]
  {
    if |uniquePrevious| == 0 then []
    else
      var rest := Gone(uniquePrevious[1..], currentIds);
      assert forall x :: x in uniquePrevious <==> x == uniquePrevious[0] || x in uniquePrevious[1..];
      assert (forall i, j :: 0 <= i < j < |uniquePrevious| ==> uniquePrevious[i] != uniquePrevious[j])
             ==> uniquePrevious[0] !in uniquePrevious[1..];
      (if uniquePrevious[0] in currentIds then [] else [uniquePrevious[0]]) + rest
  }

  const ResolvedStatus: string := "resolved"
  const ResolvedMessage: string := "Incident resolved"

  /**
   * An incident that disappeared, reported as resolved: it keeps its id, name
   * and impact, and a `resolved` update at the check instant goes in front of
   * its unchanged updates.
   */
  function ResolvedCopy(was: Incident, resolvedAt: string): (r: Incident)
    ensures r.id == was.id && r.name == was.name && r.impact == was.impact
    ensures r.status == ResolvedStatus
    ensures |r.updates| == |was.updates| + 1
    ensures r.updates[0] == Update(ResolvedStatus, ResolvedMessage, resolvedAt)
    ensures r.updates[1..] == was.updates
  {
    was.(status := ResolvedStatus, updates := [Update(ResolvedStatus, ResolvedMessage, resolvedAt)] + was.updates)
  }

  /** The resolved events, built from the first previous incident with each id that disappeared. */
  function ResolvedEvents(previous: seq<Incident>, current: seq<Incident>, resolvedAt: string): (r: seq<ChangeEvent>)
    ensures |r| == |Gone(UniqueIds(Ids(previous)), Ids(current))|
    ensures forall k :: 0 <= k < |r| ==>
              var id := Gone(UniqueIds(Ids(previous)), Ids(current))[k];
              id in Ids(previous) && r[k] == IncidentResolved(ResolvedCopy(FirstWithId(previous, id).value, resolvedAt))
  {
    var gone := Gone(UniqueIds(Ids(previous)), Ids(current));
    seq(|gone|, k requires 0 <= k < |gone| => IncidentResolved(ResolvedCopy(FirstWithId(previous, gone[k]).value, resolvedAt)))
  }

  /** `#compareIncidents`: nothing at all when the current page lists no incidents. */
  function IncidentEvents(previous: seq<Incident>, current: seq<Incident>, resolvedAt: string): (r: seq<ChangeEvent>)
    ensures |current| == 0 ==> r == []
    ensures |current| > 0 ==> r == NewOrUpdated(previous, current) + ResolvedEvents(previous, current, resolvedAt)
  {
    if |current| == 0 then []
    else NewOrUpdated(previous, current) + ResolvedEvents(previous, current, resolvedAt)
  }

  datatype DiffOutcome = DiffOutcome(events: Option<seq<ChangeEvent>>, cache: Dedup.Cache)

  /** `#compareStates(previous, current)` with the dedup cache and the clock made explicit. */
  function CompareStates(previous: Snapshot, current: Snapshot, cache: Dedup.Cache, clock: Clock): (r: DiffOutcome)
    ensures Dedup.Valid(cache) ==> Dedup.Valid(r.cache)
    ensures r.events.Some? ==> |r.events.value| > 0
    ensures r.events.None? <==>
              Suppress(cache, StatusCandidates(previous, current), clock.millis).kept == []
              && IncidentEvents(previous.incidents, current.incidents, clock.iso) == []
    ensures r.events.Some? ==>
              r.events.value == Suppress(cache, StatusCandidates(previous, current), clock.millis).kept
                                + IncidentEvents(previous.incidents, current.incidents, clock.iso)
    ensures r.cache == Suppress(cache, StatusCandidates(previous, current), clock.millis).cache
  {
    var candidates := StatusCandidates(previous, current);
    var filtered := Suppress(cache, candidates, clock.millis);
    var events := filtered.kept + IncidentEvents(previous.incidents, current.incidents, clock.iso);
    DiffOutcome(if |events| == 0 then None else Some(events), filtered.cache)
  }

  /** Incidents sharing an id agree on what the differ compares. */
  predicate ConsistentIds(incidents: seq<Incident>) {
    forall i, j :: 0 <= i < |incidents| && 0 <= j < |incidents| && incidents[i].id == incidents[j].id ==>
      !IncidentDiffers(incidents[i], incidents[j])
  }

  /** No id disappears when every previous id is still current. */
  lemma {:induction false} GoneNone(u: seq<string>, currentIds: seq<string>)
    requires forall x :: x in u ==> x in currentIds
    ensures Gone(u, currentIds) == []
  {
    if |u| > 0 {
      assert u[0] in u;
      GoneNone(u[1..], currentIds);
    }
  }

  /** Two incident lists that agree, position by position, on ids and on what the differ compares. */
  predicate Alike(previous: seq<Incident>, current: seq<Incident>) {
    && |previous| == |current|
    && forall i :: 0 <= i < |current| ==> previous[i].id == current[i].id && !IncidentDiffers(previous[i], current[i])
  }

  /** Nothing is new or updated when every current incident has a previous one with its id that it does not differ from. */
  lemma {:induction false} NothingNewOrUpdated(previous: seq<Incident>, current: seq<Incident>)
    requires forall inc :: inc in current ==>
               inc.id in Ids(previous) && !IncidentDiffers(FirstWithId(previous, inc.id).value, inc)
    ensures NewOrUpdated(previous, current) == []
  {
    if |current| > 0 {
      assert current[0] in current;
      assert IncidentChange(previous, current[0]) == [];
      NothingNewOrUpdated(previous, current[1..]);
    }
  }

  /**
   * A snapshot that repeats the previous one in everything the differ
   * compares (the description, each component's status, and the incidents'
   * ids, statuses and update counts) reports nothing and leaves the cache as
   * it was, even though timestamps and other texts may differ.
   */
  lemma AlikeDiffIsNull(previous: Snapshot, current: Snapshot, cache: Dedup.Cache, clock: Clock)
    requires previous.overall.description == current.overall.description
    requires forall i :: 0 <= i < |current.components| ==> !ComponentChanged(previous.components, current.components[i])
    requires Alike(previous.incidents, current.incidents) && ConsistentIds(current.incidents)
    ensures CompareStates(previous, current, cache, clock) == DiffOutcome(None, cache)
  {
    UnchangedComponentsQuiet(previous.components, current.components);
    assert StatusCandidates(previous, current) == [];
    var p, c := previous.incidents, current.incidents;
    if |c| > 0 {
      assert Ids(p) == Ids(c);
      forall inc | inc in c ensures inc.id in Ids(p) && !IncidentDiffers(FirstWithId(p, inc.id).value, inc) {
        var j :| 0 <= j < |c| && c[j] == inc;
        assert Ids(p)[j] == inc.id;
        var k := FirstIndex(Ids(p), inc.id).value;
        assert c[k].id == c[j].id;
      }
      NothingNewOrUpdated(p, c);
      GoneNone(UniqueIds(Ids(p)), Ids(c));
    }
  }

  /**
   * Comparing a well-formed snapshot with itself reports nothing (`null`) and
   * leaves the cache exactly as it was, since no `#isDuplicate` call is made.
   */
  lemma SelfDiffIsNull(s: Snapshot, cache: Dedup.Cache, clock: Clock)
    requires WellFormed(s) && ConsistentIds(s.incidents)
    ensures CompareStates(s, s, cache, clock) == DiffOutcome(None, cache)
  {
    forall i | 0 <= i < |s.components| ensures !ComponentChanged(s.components, s.components[i]) {
      FindDistinct(s.components, i);
    }
    AlikeDiffIsNull(s, s, cache, clock);
  }

  /** A lone incident whose id changed between snapshots is reported both as new and, under its old id, as resolved. */
  lemma RenamedIncidentChurns(previous: Snapshot, current: Snapshot, cache: Dedup.Cache, clock: Clock)
    requires |previous.incidents| == 1 && |current.incidents| == 1
    requires previous.incidents[0].id != current.incidents[0].id
    ensures var r := CompareStates(previous, current, cache, clock);
            && r.events.Some?
            && NewIncident(current.incidents[0]) in r.events.value
            && IncidentResolved(ResolvedCopy(previous.incidents[0], clock.iso)) in r.events.value
  {
    var a, b := previous.incidents[0], current.incidents[0];
    assert previous.incidents == [a] && current.incidents == [b];
    assert Ids([a]) == [a.id] && Ids([b]) == [b.id];
    assert NewIncident(b) in NewOrUpdated([a], [b]);
    var gone := Gone(UniqueIds(Ids([a])), Ids([b]));
    assert a.id in gone;
    var k :| 0 <= k < |gone| && gone[k] == a.id;
    assert ResolvedEvents([a], [b], clock.iso)[k] == IncidentResolved(ResolvedCopy(a, clock.iso));
  }

  /**
   * Without the consistency requirement the self-diff is not null: two
   * incidents that share an id (as two permalink-less incidents parsed in the
   * same millisecond do) make the second look like an update of the first.
   */
  lemma SelfDiffOfCollidingIds(s: Snapshot, cache: Dedup.Cache, clock: Clock)
    requires WellFormed(s) && s.components == []
    requires |s.incidents| == 2 && s.incidents[0].id == s.incidents[1].id
    requires s.incidents[0].status != s.incidents[1].status
    ensures CompareStates(s, s, cache, clock).events == Some([IncidentUpdate(s.incidents[1])])
  {
    var incs := s.incidents;
    assert Ids(incs) == [incs[0].id, incs[1].id];
    assert FirstWithId(incs, incs[0].id) == Some(incs[0]);
    assert incs[1..][1..] == [];
    assert NewOrUpdated(incs, incs) == [IncidentUpdate(incs[1])];
    GoneNone(UniqueIds(Ids(incs)), Ids(incs));
    assert StatusCandidates(s, s) == [];
  }

  /** The place of an event kind in the differ's output. */
  function Rank(e: ChangeEvent): nat {
    match e
    case StatusChange(_, _, _) => 0
    case ComponentUpdate(_, _, _) => 1
    case NewIncident(_) => 2
    case IncidentUpdate(_) => 2
    case IncidentResolved(_) => 3
  }

  predicate Ranked(events: seq<ChangeEvent>) {
    forall i, j :: 0 <= i < j < |events| ==> Rank(events[i]) <= Rank(events[j])
  }

  /** Two ranked runs, the first not above the second, make a ranked run. */
  lemma RankedAppend(a: seq<ChangeEvent>, b: seq<ChangeEvent>)
    requires Ranked(a) && Ranked(b)
    requires forall x, y :: x in a && y in b ==> Rank(x) <= Rank(y)
    ensures Ranked(a + b)
  {
    forall i, j | 0 <= i < j < |a + b| ensures Rank((a + b)[i]) <= Rank((a + b)[j]) {
      if i < |a| && j >= |a| {
        assert (a + b)[i] in a && (a + b)[j] in b;
      }
    }
  }

  /** Filtering through the cache keeps the relative order of the events. */
  lemma {:induction false} SuppressKeepsOrder(cache: Dedup.Cache, events: seq<ChangeEvent>, now: int)
    requires Ranked(events)
    ensures Ranked(Suppress(cache, events, now).kept)
    decreases |events|
  {
    if |events| > 0 {
      var e, t := events[0], events[1..];
      assert events == [e] + t;
      var c1, head := SuppressCons(cache, e, t, now);
      RankedCons(e, t);
      SuppressKeepsOrder(c1, t, now);
      var rest := Suppress(c1, t, now).kept;
      assert forall x, y :: x in head && y in rest ==> Rank(x) <= Rank(y);
      RankedAppend(head, rest);
    }
  }

  /** The first of a ranked run is not above anything after it, and the rest is ranked. */
  lemma RankedCons(e: ChangeEvent, t: seq<ChangeEvent>)
    requires Ranked([e] + t)
    ensures Ranked(t)
    ensures forall y :: y in t ==> Rank(e) <= Rank(y)
  {
    var s := [e] + t;
    forall i, j | 0 <= i < j < |t| ensures Rank(t[i]) <= Rank(t[j]) {
      assert t[i] == s[i + 1] && t[j] == s[j + 1];
    }
    forall y | y in t ensures Rank(e) <= Rank(y) {
      var j :| 0 <= j < |t| && t[j] == y;
      assert s[0] == e && s[j + 1] == y;
    }
  }

  /** A run of one kind is ranked. */
  lemma SameRank(s: seq<ChangeEvent>, k: nat)
    requires forall e :: e in s ==> Rank(e) == k
    ensures Ranked(s)
  {
    forall i, j | 0 <= i < j < |s| ensures Rank(s[i]) <= Rank(s[j]) {
      assert s[i] in s && s[j] in s;
    }
  }

  /** The status and component candidates come first: the status event, then components. */
  lemma CandidatesRanked(previous: Snapshot, current: Snapshot)
    ensures Ranked(StatusCandidates(previous, current))
    ensures forall e :: e in StatusCandidates(previous, current) ==> Rank(e) <= 1
  {
    var comps := ComponentCandidates(previous.components, current.components);
    var head := if previous.overall.description != current.overall.description
                then [StatusChange(StatusMessage(current.overall.description), current.timestamp, current.overall.level)]
                else [];
    SameRank(comps, 1);
    RankedAppend(head, comps);
  }

  /** The incident events: new and updated ones, then resolved ones. */
  lemma IncidentEventsRanked(previous: seq<Incident>, current: seq<Incident>, resolvedAt: string)
    ensures Ranked(IncidentEvents(previous, current, resolvedAt))
    ensures forall e :: e in IncidentEvents(previous, current, resolvedAt) ==> Rank(e) >= 2
  {
    if |current| > 0 {
      var nu := NewOrUpdated(previous, current);
      var res := ResolvedEvents(previous, current, resolvedAt);
      SameRank(nu, 2);
      ResolvedRank(previous, current, resolvedAt);
      SameRank(res, 3);
      RankedAppend(nu, res);
    }
  }

  /** Every resolved event is of the last kind. */
  lemma ResolvedRank(previous: seq<Incident>, current: seq<Incident>, resolvedAt: string)
    ensures forall e :: e in ResolvedEvents(previous, current, resolvedAt) ==> Rank(e) == 3
  {
    var res := ResolvedEvents(previous, current, resolvedAt);
    forall e | e in res ensures Rank(e) == 3 {
      var k :| 0 <= k < |res| && res[k] == e;
    }
  }

  /**
   * The events come out as: the status change, then component changes, then
   * new and updated incidents, then resolved incidents.
   */
  lemma EventOrder(previous: Snapshot, current: Snapshot, cache: Dedup.Cache, clock: Clock)
    ensures var r := CompareStates(previous, current, cache, clock);
            r.events.Some? ==> Ranked(r.events.value)
  {
    var candidates := StatusCandidates(previous, current);
    CandidatesRanked(previous, current);
    SuppressKeepsOrder(cache, candidates, clock.millis);
    var kept := Suppress(cache, candidates, clock.millis).kept;
    IncidentEventsRanked(previous.incidents, current.incidents, clock.iso);
    RankedAppend(kept, IncidentEvents(previous.incidents, current.incidents, clock.iso));
  }

  /**
   * When none of the candidate keys has been seen and they are pairwise
   * different, every candidate is reported: the result is the status and
   * component candidates followed by the incident events, or `null` when
   * there are none.
   */
  lemma FreshDiffReportsAll(previous: Snapshot, current: Snapshot, cache: Dedup.Cache, clock: Clock)
    requires DistinctDedupKeys(StatusCandidates(previous, current))
    requires Fresh(cache, StatusCandidates(previous, current))
    ensures var all := StatusCandidates(previous, current) + IncidentEvents(previous.incidents, current.incidents, clock.iso);
            CompareStates(previous, current, cache, clock).events == if all == [] then None else Some(all)
  {
    SuppressKeepsFresh(cache, StatusCandidates(previous, current), clock.millis);
  }

  /** A changed description with an unseen key is reported first, with the current level. */
  lemma DescriptionChangeReported(previous: Snapshot, current: Snapshot, cache: Dedup.Cache, clock: Clock)
    requires previous.overall.description != current.overall.description
    requires !HasKey(cache, Dedup.Key(StatusMessage(current.overall.description), current.timestamp))
    ensures var r := CompareStates(previous, current, cache, clock);
            && r.events.Some?
            && r.events.value[0] == StatusChange(StatusMessage(current.overall.description), current.timestamp, current.overall.level)
  {
    var candidates := StatusCandidates(previous, current);
    assert candidates[0] == StatusChange(StatusMessage(current.overall.description), current.timestamp, current.overall.level);
  }

  /** A status change is reported only when the description text changed. */
  lemma StatusChangeNeedsNewDescription(previous: Snapshot, current: Snapshot, cache: Dedup.Cache, clock: Clock)
    requires previous.overall.description == current.overall.description
    ensures var r := CompareStates(previous, current, cache, clock);
            r.events.Some? ==> forall e :: e in r.events.value ==> !e.StatusChange?
  {
    var candidates := StatusCandidates(previous, current);
    assert candidates == ComponentCandidates(previous.components, current.components);
    var kept := Suppress(cache, candidates, clock.millis).kept;
    assert forall e :: e in kept ==> e.ComponentUpdate?;
    NoStatusChangeLater(previous, current, cache, clock);
  }

  /**
   * A changed description whose key `#isDuplicate` finds among the entries it
   * keeps is not reported: the status event is dropped, and nothing else is a
   * status event.
   */
  lemma DuplicateStatusDropped(previous: Snapshot, current: Snapshot, cache: Dedup.Cache, clock: Clock)
    requires HasKey(Dedup.Kept(cache, clock.millis), Dedup.Key(StatusMessage(current.overall.description), current.timestamp))
    ensures var r := CompareStates(previous, current, cache, clock);
            r.events.Some? ==> forall e :: e in r.events.value ==> !e.StatusChange?
  {
    if previous.overall.description == current.overall.description {
      StatusChangeNeedsNewDescription(previous, current, cache, clock);
    } else {
      var status := StatusChange(StatusMessage(current.overall.description), current.timestamp, current.overall.level);
      var comps := ComponentCandidates(previous.components, current.components);
      var kept := Suppress(cache, StatusCandidates(previous, current), clock.millis).kept;
      assert forall e :: e in kept ==> !e.StatusChange? by {
        assert StatusCandidates(previous, current) == [status] + comps;
        var c1, _ := SuppressCons(cache, status, comps, clock.millis);
        assert kept == Suppress(c1, comps, clock.millis).kept;
      }
      NoStatusChangeLater(previous, current, cache, clock);
    }
  }

  /** When no status event gets through the cache, the comparison reports none: incident events are never status events. */
  lemma NoStatusChangeLater(previous: Snapshot, current: Snapshot, cache: Dedup.Cache, clock: Clock)
    requires forall e :: e in Suppress(cache, StatusCandidates(previous, current), clock.millis).kept ==> !e.StatusChange?
    ensures var r := CompareStates(previous, current, cache, clock);
            r.events.Some? ==> forall e :: e in r.events.value ==> !e.StatusChange?
  {
    var kept := Suppress(cache, StatusCandidates(previous, current), clock.millis).kept;
    var incidents := IncidentEvents(previous.incidents, current.incidents, clock.iso);
    IncidentEventsRanked(previous.incidents, current.incidents, clock.iso);
    assert forall e :: e in kept + incidents ==> e in kept || e in incidents;
  }

  /** Incident events are never filtered: each one the comparison computes is among the events reported. */
  lemma IncidentEventReported(previous: Snapshot, current: Snapshot, cache: Dedup.Cache, clock: Clock, e: ChangeEvent)
    requires e in IncidentEvents(previous.incidents, current.incidents, clock.iso)
    ensures var r := CompareStates(previous, current, cache, clock);
            r.events.Some? && e in r.events.value
  {
  }

  /** While the current page lists incidents, an incident whose id was not there before is reported as new. */
  lemma NewIncidentReported(previous: Snapshot, current: Snapshot, cache: Dedup.Cache, clock: Clock, inc: Incident)
    requires |current.incidents| > 0
    requires inc in current.incidents && inc.id !in Ids(previous.incidents)
    ensures var r := CompareStates(previous, current, cache, clock);
            r.events.Some? && NewIncident(inc) in r.events.value
  {
    assert NewIncident(inc) in NewOrUpdated(previous.incidents, current.incidents);
    IncidentEventReported(previous, current, cache, clock, NewIncident(inc));
  }

  /**
   * While the current page lists incidents, an id that disappeared is
   * reported as resolved, from the first previous incident with that id.
   */
  lemma GoneIncidentReported(previous: Snapshot, current: Snapshot, cache: Dedup.Cache, clock: Clock, id: string)
    requires |current.incidents| > 0
    requires id in Ids(previous.incidents) && id !in Ids(current.incidents)
    ensures var r := CompareStates(previous, current, cache, clock);
            r.events.Some? && IncidentResolved(ResolvedCopy(FirstWithId(previous.incidents, id).value, clock.iso)) in r.events.value
  {
    var e := IncidentResolved(ResolvedCopy(FirstWithId(previous.incidents, id).value, clock.iso));
    var res := ResolvedEvents(previous.incidents, current.incidents, clock.iso);
    ResolvedExactlyOnce(previous.incidents, current.incidents, clock.iso, id);
    var k :| 0 <= k < |res| && res[k] == e;
    assert e in res;
    IncidentEventReported(previous, current, cache, clock, e);
  }

  /** An empty current incident list yields no incident events, so open incidents are not resolved. */
  lemma NoIncidentsNoIncidentEvents(previous: Snapshot, current: Snapshot, cache: Dedup.Cache, clock: Clock)
    requires current.incidents == []
    ensures var r := CompareStates(previous, current, cache, clock);
            r.events.Some? ==> forall e :: e in r.events.value ==> Deduplicable(e)
  {
  }

  /** Each id that disappeared yields exactly one resolved event, built from the first previous incident with that id. */
  lemma ResolvedExactlyOnce(previous: seq<Incident>, current: seq<Incident>, resolvedAt: string, id: string)
    requires id in Ids(previous) && id !in Ids(current)
    ensures var r := ResolvedEvents(previous, current, resolvedAt);
            && (exists k :: 0 <= k < |r| && r[k] == IncidentResolved(ResolvedCopy(FirstWithId(previous, id).value, resolvedAt)))
            && forall k1, k2 :: 0 <= k1 < k2 < |r| ==> r[k1].incident.id != r[k2].incident.id
  {
    var gone := Gone(UniqueIds(Ids(previous)), Ids(current));
    var r := ResolvedEvents(previous, current, resolvedAt);
    assert id in gone;
    var k :| 0 <= k < |gone| && gone[k] == id;
    assert r[k] == IncidentResolved(ResolvedCopy(FirstWithId(previous, id).value, resolvedAt));
    forall k | 0 <= k < |r| ensures r[k].incident.id == gone[k] {
      FirstWithIdHasId(previous, gone[k]);
    }
  }

  /** A resolved event is only for an id that disappeared. */
  lemma ResolvedOnlyGone(previous: seq<Incident>, current: seq<Incident>, resolvedAt: string)
    ensures var r := ResolvedEvents(previous, current, resolvedAt);
            forall k :: 0 <= k < |r| ==> r[k].incident.id in Ids(previous) && r[k].incident.id !in Ids(current)
  {
    var gone := Gone(UniqueIds(Ids(previous)), Ids(current));
    var r := ResolvedEvents(previous, current, resolvedAt);
    forall k | 0 <= k < |r| ensures r[k].incident.id == gone[k] && gone[k] in gone {
      FirstWithIdHasId(previous, gone[k]);
    }
  }

  lemma FirstWithIdHasId(incidents: seq<Incident>, id: string)
    requires id in Ids(incidents)
    ensures FirstWithId(incidents, id).value.id == id
  {
  }

  /** Gone keeps the order of its input: first occurrence in the previous ids. */
  predicate InFirstOccurrenceOrder(u: seq<string>, ids: seq<string>) {
    forall i, j :: 0 <= i < j < |u| ==> u[i] in ids && u[j] in ids && FirstIndex(ids, u[i]).value < FirstIndex(ids, u[j]).value
  }

  lemma {:induction false} GoneKeepsOrder(u: seq<string>, currentIds: seq<string>, ids: seq<string>)
    requires InFirstOccurrenceOrder(u, ids)
    ensures InFirstOccurrenceOrder(Gone(u, currentIds), ids)
  {
    if |u| > 0 {
      assert InFirstOccurrenceOrder(u[1..], ids) by {
        forall i, j | 0 <= i < j < |u[1..]| ensures u[1..][i] == u[i + 1] && u[1..][j] == u[j + 1] {
        }
      }
      GoneKeepsOrder(u[1..], currentIds, ids);
      var rest := Gone(u[1..], currentIds);
      if u[0] !in currentIds {
        forall j | 0 <= j < |rest| ensures rest[j] in ids && FirstIndex(ids, u[0]).value < FirstIndex(ids, rest[j]).value {
          assert rest[j] in u[1..];
          var m :| 0 <= m < |u[1..]| && u[1..][m] == rest[j];
          assert u[m + 1] == rest[j];
        }
      }
    }
  }

  /** The resolved events follow the first occurrence of their ids in the previous list. */
  lemma ResolvedInPreviousOrder(previous: seq<Incident>, current: seq<Incident>, resolvedAt: string)
    ensures var r := ResolvedEvents(previous, current, resolvedAt);
            forall i, j :: 0 <= i < j < |r| ==>
              && r[i].incident.id in Ids(previous) && r[j].incident.id in Ids(previous)
              && FirstIndex(Ids(previous), r[i].incident.id).value < FirstIndex(Ids(previous), r[j].incident.id).value
  {
    var gone := Gone(UniqueIds(Ids(previous)), Ids(current));
    var r := ResolvedEvents(previous, current, resolvedAt);
    GoneKeepsOrder(UniqueIds(Ids(previous)), Ids(current), Ids(previous));
    forall k | 0 <= k < |r| ensures r[k].incident.id == gone[k] {
      FirstWithIdHasId(previous, gone[k]);
    }
  }
}
