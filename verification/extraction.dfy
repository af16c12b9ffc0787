/**
 * Extraction of a snapshot from the status page. The page is given as an
 * abstract document whose parts are the texts and attributes the checker's
 * CSS selectors pick out (the `.text()` of a missing element is the empty
 * string, a missing attribute is `None`); everything the checker then does
 * with those texts is modelled here.
 */
module Extraction {
  import opened Options
  import opened TextUtil
  import opened Entries
  import opened StatusTypes

  /** One `.component-container`: the texts of its `.name` and `.component-status`. */
  datatype ComponentNode = ComponentNode(nameText: string, statusText: string)

  /**
   * One `.update` block: the texts of its `strong` and `.whitespace-pre-wrap`
   * children, and of its `small` element with the date, time and year
   * variables inside it.
   */
  datatype UpdateNode = UpdateNode(strongText: string, messageText: string, smallText: string,
                                   dayText: string, timeText: string, yearText: string)

  /**
   * One `.incident-container`: the class attribute of its `.incident-title`,
   * the href and text of the title's link, and its update blocks in document order.
   */
  datatype IncidentNode = IncidentNode(titleClass: Option<string>, href: Option<string>,
                                       linkText: string, updates: seq<UpdateNode>)

  /** One `.status-day` group with its incident containers. */
  datatype DayNode = DayNode(incidents: seq<IncidentNode>)

  /** The parts of the status page the checker reads. */
  datatype Document = Document(description: string, statusClass: Option<string>,
                               components: seq<ComponentNode>, days: seq<DayNode>)

  /**
   * The checker's way of turning `"{month} {day}, {year} {time} PST"` into an
   * ISO timestamp: `None` stands for JavaScript's invalid date.
   */
  type DateParser = string -> Option<string>

  const DefaultDescription: string := "All Systems Operational"
  const DefaultIncidentStatus: string := "investigating"

  /** The position of the first (needle, value) pair whose needle occurs in `s`. */
  function FirstHit<T>(s: string, table: seq<(string, T)>): (r: Option<nat>)
    ensures r.Some? ==> r.value < |table| && Contains(s, table[r.value].0)
    ensures r.Some? ==> forall k :: 0 <= k < r.value ==> !Contains(s, table[k].0)
    ensures r.None? ==> forall k :: 0 <= k < |table| ==> !Contains(s, table[k].0)
  {
    if |table| == 0 then None
    else if Contains(s, table[0].0) then Some(0)
    else
      match FirstHit(s, table[1..])
      case None => None
      case Some(k) => Some(k + 1)
  }

  /** First match over an ordered list of (needle, value) pairs, or `default`: the `for ... of map` loops. */
  function FirstMatch<T>(s: string, table: seq<(string, T)>, default: T): T {
    match FirstHit(s, table)
    case None => default
    case Some(k) => table[k].1
  }

  const LevelTable: seq<(string, Level)> :=
    [("degraded", Degraded), ("outage", Outage), ("maintenance", Maintenance)]

  const ImpactTable: seq<(string, Impact)> :=
    [("impact-minor", Minor), ("impact-major", Major), ("impact-critical", Critical)]

  /** `#determineStatusLevel`: first of degraded, outage, maintenance found in the class string. */
  function DetermineStatusLevel(statusClass: string): (r: Level)
    ensures r == Degraded <==> Contains(statusClass, "degraded")
    ensures r == Outage <==> !Contains(statusClass, "degraded") && Contains(statusClass, "outage")
    ensures r == Maintenance <==> !Contains(statusClass, "degraded") && !Contains(statusClass, "outage")
                                  && Contains(statusClass, "maintenance")
    ensures r == Operational <==> !Contains(statusClass, "degraded") && !Contains(statusClass, "outage")
                                  && !Contains(statusClass, "maintenance")
  {
    assert LevelTable[0].0 == "degraded" && LevelTable[1].0 == "outage" && LevelTable[2].0 == "maintenance";
    FirstMatch(statusClass, LevelTable, Operational)
  }

  /** `#determineImpactLevel`: first of impact-minor, impact-major, impact-critical found in the class string. */
  function DetermineImpactLevel(titleClass: string): (r: Impact)
    ensures r == Minor <==> Contains(titleClass, "impact-minor")
    ensures r == Major <==> !Contains(titleClass, "impact-minor") && Contains(titleClass, "impact-major")
    ensures r == Critical <==> !Contains(titleClass, "impact-minor") && !Contains(titleClass, "impact-major")
                               && Contains(titleClass, "impact-critical")
    ensures r == NoImpact <==> !Contains(titleClass, "impact-minor") && !Contains(titleClass, "impact-major")
                               && !Contains(titleClass, "impact-critical")
  {
    assert ImpactTable[0].0 == "impact-minor" && ImpactTable[1].0 == "impact-major" && ImpactTable[2].0 == "impact-critical";
    FirstMatch(titleClass, ImpactTable, NoImpact)
  }

  /** `#parseOverallStatus`: the trimmed description with its default, and the level of the class attribute. */
  function ParseOverallStatus(doc: Document): (r: Overall)
    ensures Trim(doc.description) == [] ==> r.description == DefaultDescription
    ensures Trim(doc.description) != [] ==> r.description == Trim(doc.description)
    ensures r.description != []
    ensures doc.statusClass.None? ==> r.level == Operational
    ensures r.level == DetermineStatusLevel(doc.statusClass.GetOr(""))
  {
    var d := Trim(doc.description);
    Overall(if d == [] then DefaultDescription else d, DetermineStatusLevel(doc.statusClass.GetOr("")))
  }

  /** `#parseComponents`: allow-listed containers, keyed by trimmed name, all stamped with one timestamp. */
  function ParseComponents(nodes: seq<ComponentNode>, allowed: set<string>, timestamp: string): (r: Components)
    ensures DistinctKeys(r)
    ensures forall i :: 0 <= i < |r| ==> r[i].0 in allowed && r[i].1.timestamp == timestamp
  {
    if |nodes| == 0 then []
    else
      var acc := ParseComponents(nodes[..|nodes| - 1], allowed, timestamp);
      var name := Trim(nodes[|nodes| - 1].nameText);
      if name in allowed then
        var v := ComponentState(Trim(nodes[|nodes| - 1].statusText), timestamp);
        PutAll(acc, name, v, (e: (string, ComponentState)) => e.0 in allowed && e.1.timestamp == timestamp);
        PutDistinct(acc, name, v);
        Put(acc, name, v)
      else acc
  }

  /** The trimmed names of the component containers, in document order. */
  function Names(nodes: seq<ComponentNode>): (names: seq<string>)
    ensures |names| == |nodes|
    ensures forall i :: 0 <= i < |nodes| ==> names[i] == Trim(nodes[i].nameText)
  {
    if |nodes| == 0 then []
    else
      assert forall i :: 0 <= i < |nodes| - 1 ==> nodes[..|nodes| - 1][i] == nodes[i];
      Names(nodes[..|nodes| - 1]) + [Trim(nodes[|nodes| - 1].nameText)]
  }

  /**
   * What the parsed components say about one name: it is present exactly when
   * it is allow-listed and some container carries it, and then its status is
   * the one of the LAST such container (later containers overwrite earlier ones).
   */
  lemma {:induction false} ParseComponentsFind(nodes: seq<ComponentNode>, allowed: set<string>, timestamp: string, name: string)
    ensures Find(ParseComponents(nodes, allowed, timestamp), name)
            == if name !in allowed then None
               else match LastIndex(Names(nodes), name)
                    case None => None
                    case Some(i) => Some(ComponentState(Trim(nodes[i].statusText), timestamp))
  {
    if |nodes| > 0 {
      var init := nodes[..|nodes| - 1];
      var last := Trim(nodes[|nodes| - 1].nameText);
      var acc := ParseComponents(init, allowed, timestamp);
      var v := ComponentState(Trim(nodes[|nodes| - 1].statusText), timestamp);
      assert Names(nodes) == Names(init) + [last];
      if last == name {
        if name in allowed {
          PutFind(acc, name, v, name);
        }
      } else {
        assert Names(nodes)[..|nodes| - 1] == Names(init);
        assert LastIndex(Names(nodes), name) == LastIndex(Names(init), name);
        ParseComponentsFind(init, allowed, timestamp, name);
        if last in allowed {
          PutFind(acc, last, v, name);
        }
      }
    }
  }

  /** Every key is one of the names, and the keys come in the order of each name's first occurrence. */
  predicate InFirstOrder(keys: seq<string>, names: seq<string>) {
    && (forall i :: 0 <= i < |keys| ==> keys[i] in names)
    && (forall i, j :: 0 <= i < j < |keys| ==> FirstIndex(names, keys[i]).value < FirstIndex(names, keys[j]).value)
  }

  /**
   * The components come in the order of the first container carrying each
   * allow-listed name: a later container with a known name overwrites the
   * status in place and does not move the name.
   */
  lemma {:induction false} ParseComponentsOrder(nodes: seq<ComponentNode>, allowed: set<string>, timestamp: string)
    ensures InFirstOrder(Keys(ParseComponents(nodes, allowed, timestamp)), Names(nodes))
  {
    if |nodes| > 0 {
      var init := nodes[..|nodes| - 1];
      var last := Trim(nodes[|nodes| - 1].nameText);
      var acc := Keys(ParseComponents(init, allowed, timestamp));
      ParseComponentsOrder(init, allowed, timestamp);
      assert Names(nodes) == Names(init) + [last];
      OrderStep(acc, Names(init), last);
      if last in allowed && last !in acc {
        ParseComponentsFind(init, allowed, timestamp, last);
      }
    }
  }

  /** One more name keeps the order of the keys, and a name not seen before may follow them. */
  lemma OrderStep(keys: seq<string>, names: seq<string>, last: string)
    requires InFirstOrder(keys, names)
    ensures InFirstOrder(keys, names + [last])
    ensures last !in names ==> InFirstOrder(keys + [last], names + [last])
  {
    FirstIndexSnoc(names, last);
    if last !in names {
      var ks := keys + [last];
      forall i | 0 <= i < |ks| ensures ks[i] in names + [last] {
        if i < |keys| { assert ks[i] == keys[i]; }
      }
    }
  }

  /** The month of an update: the first space-separated word of its trimmed `small` text. */
  function DateMonth(u: UpdateNode): (month: string)
    ensures ' ' !in month
    ensures |month| <= |Trim(u.smallText)| && Trim(u.smallText)[..|month|] == month
    ensures |month| == |Trim(u.smallText)| || Trim(u.smallText)[|month|] == ' '
  {
    BeforeFirst(Trim(u.smallText), ' ')
  }

  /** The year of an update: its trimmed year variable, or the current year when that is blank. */
  function DateYear(u: UpdateNode, clock: Clock): (year: string)
    ensures year != []
    ensures Trim(u.yearText) != [] ==> year == Trim(u.yearText)
    ensures Trim(u.yearText) == [] ==> year == NatToString(clock.year)
  {
    if Trim(u.yearText) == [] then NatToString(clock.year)
    else Trim(u.yearText)
  }

  lemma YearHasNoSpace(u: UpdateNode, clock: Clock)
    requires ' ' !in Trim(u.yearText)
    ensures ' ' !in DateYear(u, clock)
  {
    var year := DateYear(u, clock);
    if Trim(u.yearText) == [] {
      forall i | 0 <= i < |year| ensures year[i] != ' ' {
        assert IsDigit(year[i]);
      }
    }
  }

  lemma SplitFour(a: string, b: string, c: string, d: string, sep: char)
    requires sep !in a && sep !in b && sep !in c && sep !in d
    ensures Split(Join([a, b, c, d], [sep]), sep) == [a, b, c, d]
  {
    var parts := [a, b, c, d];
    assert forall i :: 0 <= i < |parts| ==> sep !in parts[i];
    SplitJoin(parts, sep);
  }

  lemma JoinFour(a: string, b: string, c: string, d: string, sep: string)
    ensures Join([a, b, c, d], sep) == a + sep + (b + sep + (c + sep + d))
  {
    assert [c, d][1..] == [d];
    assert Join([c, d], sep) == c + sep + d;
    assert [b, c, d][1..] == [c, d];
    assert Join([b, c, d], sep) == b + sep + (c + sep + d);
    assert [a, b, c, d][1..] == [b, c, d];
  }

  /** The joined parts read as the source's template `"{month} {day}, {year} {time}"`. */
  lemma DateTemplate(m: string, d: string, y: string, t: string)
    ensures m + " " + (d + "," + " " + (y + " " + t)) == m + " " + d + ", " + y + " " + t
  {
    assert "," + " " == ", ";
    assert |m + " " + (d + "," + " " + (y + " " + t))| == |m + " " + d + ", " + y + " " + t|;
  }

  /** `#extractDateInfo`: the four parts joined by single spaces. */
  function ExtractDateInfo(u: UpdateNode, clock: Clock): (r: string)
    ensures r == DateMonth(u) + " " + Trim(u.dayText) + ", " + DateYear(u, clock) + " " + Trim(u.timeText)
  {
    var month, day, year, time := DateMonth(u), Trim(u.dayText), DateYear(u, clock), Trim(u.timeText);
    JoinFour(month, day + ",", year, time, " ");
    DateTemplate(month, day, year, time);
    Join([month, day + ",", year, time], " ")
  }

  /**
   * The date string reads back as its four parts: splitting it on spaces
   * gives the month, the day with its comma, the year and the time, as long
   * as the day, time and year texts hold no inner space.
   */
  lemma DateInfoParts(u: UpdateNode, clock: Clock)
    requires ' ' !in Trim(u.dayText) && ' ' !in Trim(u.timeText) && ' ' !in Trim(u.yearText)
    ensures Split(ExtractDateInfo(u, clock), ' ') == [DateMonth(u), Trim(u.dayText) + ",", DateYear(u, clock), Trim(u.timeText)]
  {
    YearHasNoSpace(u, clock);
    SplitFour(DateMonth(u), Trim(u.dayText) + ",", DateYear(u, clock), Trim(u.timeText), ' ');
  }

  /** `#parseTimestamp`: the parsed date, or the current instant when it does not parse. */
  function ParseTimestamp(dateInfo: string, clock: Clock, parseDate: DateParser): (r: string)
    ensures parseDate(dateInfo + " PST").None? ==> r == clock.iso
    ensures parseDate(dateInfo + " PST").Some? ==> r == parseDate(dateInfo + " PST").value
  {
    parseDate(dateInfo + " PST").GetOr(clock.iso)
  }

  function ParseUpdate(u: UpdateNode, clock: Clock, parseDate: DateParser): Update {
    Update(Lower(Trim(u.strongText)), Trim(u.messageText), ParseTimestamp(ExtractDateInfo(u, clock), clock, parseDate))
  }

  /** `#parseUpdates`: one update per block, in document order, with lowercased status. */
  function ParseUpdates(nodes: seq<UpdateNode>, clock: Clock, parseDate: DateParser): (r: seq<Update>)
    ensures |r| == |nodes|
    ensures forall i :: 0 <= i < |nodes| ==> r[i].status == Lower(Trim(nodes[i].strongText))
    ensures forall i :: 0 <= i < |nodes| ==> r[i].message == Trim(nodes[i].messageText)
    ensures forall i :: 0 <= i < |nodes| ==> r[i].timestamp == ParseTimestamp(ExtractDateInfo(nodes[i], clock), clock, parseDate)
    ensures forall i :: 0 <= i < |r| ==> forall k :: 0 <= k < |r[i].status| ==> !('A' <= r[i].status[k] <= 'Z')
  {
    seq(|nodes|, i requires 0 <= i < |nodes| => ParseUpdate(nodes[i], clock, parseDate))
  }

  /** The incident id: the last `/`-segment of the title link, or the clock in milliseconds when that is missing or empty. */
  function IncidentId(href: Option<string>, clock: Clock): (id: string)
    ensures id != [] && '/' !in id
    ensures href.Some? && AfterLast(href.value, '/') != [] ==> id == AfterLast(href.value, '/')
    ensures (href.None? || AfterLast(href.value, '/') == []) ==> id == NatToString(clock.millis)
  {
    var seg := if href.Some? then AfterLast(href.value, '/') else [];
    if seg != [] then seg
    else
      var fallback := NatToString(clock.millis);
      assert forall i :: 0 <= i < |fallback| ==> fallback[i] != '/' by {
        forall i | 0 <= i < |fallback| ensures fallback[i] != '/' { assert IsDigit(fallback[i]); }
      }
      fallback
  }

  /** A permalink `.../incidents/<seg>` yields the id `<seg>`. */
  lemma IncidentIdOfPermalink(path: string, seg: string, clock: Clock)
    requires seg != [] && '/' !in seg
    ensures IncidentId(Some(path + "/" + seg), clock) == seg
  {
    AfterLastOfJoin(path, '/', seg);
  }

  /** `#parseIncidentElement`. */
  function ParseIncident(n: IncidentNode, clock: Clock, parseDate: DateParser): (r: Incident)
    ensures r.id == IncidentId(n.href, clock)
    ensures r.id != [] && '/' !in r.id
    ensures r.name == Trim(n.linkText)
    ensures r.impact == DetermineImpactLevel(n.titleClass.GetOr(""))
    ensures r.updates == ParseUpdates(n.updates, clock, parseDate)
    ensures |n.updates| > 0 && Lower(Trim(n.updates[0].strongText)) != [] ==> r.status == Lower(Trim(n.updates[0].strongText))
    ensures (|n.updates| == 0 || Lower(Trim(n.updates[0].strongText)) == []) ==> r.status == DefaultIncidentStatus
    ensures |r.updates| == |n.updates|
    ensures r.status != []
    ensures |r.updates| > 0 && r.updates[0].status != [] ==> r.status == r.updates[0].status
    ensures (|r.updates| == 0 || r.updates[0].status == []) ==> r.status == DefaultIncidentStatus
  {
    var updates := ParseUpdates(n.updates, clock, parseDate);
    var status := if |updates| > 0 && updates[0].status != [] then updates[0].status else DefaultIncidentStatus;
    Incident(IncidentId(n.href, clock), Trim(n.linkText), DetermineImpactLevel(n.titleClass.GetOr("")), status, updates)
  }

  /** Every incident container of every day group, in document order. */
  function AllIncidentNodes(days: seq<DayNode>): seq<IncidentNode> {
    if |days| == 0 then [] else days[0].incidents + AllIncidentNodes(days[1..])
  }

  /** `#parseIncidents`: the containers of each day group in turn. */
  function ParseIncidents(days: seq<DayNode>, clock: Clock, parseDate: DateParser): (r: seq<Incident>)
    ensures |r| == |AllIncidentNodes(days)|
  {
    if |days| == 0 then []
    else
      seq(|days[0].incidents|, k requires 0 <= k < |days[0].incidents| => ParseIncident(days[0].incidents[k], clock, parseDate))
      + ParseIncidents(days[1..], clock, parseDate)
  }

  /** One incident per container, in document order across the day groups. */
  lemma {:induction false} ParseIncidentsFlat(days: seq<DayNode>, clock: Clock, parseDate: DateParser)
    ensures var r := ParseIncidents(days, clock, parseDate);
            && |r| == |AllIncidentNodes(days)|
            && forall i :: 0 <= i < |r| ==> r[i] == ParseIncident(AllIncidentNodes(days)[i], clock, parseDate)
  {
    if |days| > 0 {
      ParseIncidentsFlat(days[1..], clock, parseDate);
    }
  }

  /** An incident container whose title links to a page with a non-empty last segment. */
  predicate HasPermalink(n: IncidentNode) {
    n.href.Some? && AfterLast(n.href.value, '/') != []
  }

  /**
   * Reading the same components at two instants gives, for each component
   * of the second reading, the same status in the first; only the
   * timestamps differ.
   */
  lemma ComponentIgnoresClock(nodes: seq<ComponentNode>, allowed: set<string>, t1: string, t2: string, i: nat)
    requires i < |ParseComponents(nodes, allowed, t2)|
    ensures var entry := ParseComponents(nodes, allowed, t2)[i];
            Find(ParseComponents(nodes, allowed, t1), entry.0) == Some(ComponentState(entry.1.status, t1))
  {
    var c2 := ParseComponents(nodes, allowed, t2);
    FindDistinct(c2, i);
    ParseComponentsFind(nodes, allowed, t1, c2[i].0);
    ParseComponentsFind(nodes, allowed, t2, c2[i].0);
  }

  /** With a permalink, an incident's id, status and update count do not depend on when it is read. */
  lemma IncidentIgnoresClock(n: IncidentNode, c1: Clock, c2: Clock, parseDate: DateParser)
    requires HasPermalink(n)
    ensures var a, b := ParseIncident(n, c1, parseDate), ParseIncident(n, c2, parseDate);
            a.id == b.id && a.status == b.status && |a.updates| == |b.updates|
  {
  }

  /** Without one, the id is the instant of reading, so two readings at different milliseconds disagree. */
  lemma IncidentWithoutPermalinkMoves(n: IncidentNode, c1: Clock, c2: Clock, parseDate: DateParser)
    requires n.href.None? && c1.millis != c2.millis
    ensures ParseIncident(n, c1, parseDate).id != ParseIncident(n, c2, parseDate).id
  {
    NatToStringInjective(c1.millis, c2.millis);
  }

  /** A page whose incidents all have permalinks yields, at any two instants, incidents that agree position by position on id, status and update count. */
  lemma IncidentsIgnoreClock(days: seq<DayNode>, c1: Clock, c2: Clock, parseDate: DateParser)
    requires forall n :: n in AllIncidentNodes(days) ==> HasPermalink(n)
    ensures var a, b := ParseIncidents(days, c1, parseDate), ParseIncidents(days, c2, parseDate);
            && |a| == |b|
            && forall i :: 0 <= i < |b| ==> a[i].id == b[i].id && a[i].status == b[i].status && |a[i].updates| == |b[i].updates|
  {
    ParseIncidentsFlat(days, c1, parseDate);
    ParseIncidentsFlat(days, c2, parseDate);
    var nodes := AllIncidentNodes(days);
    forall i | 0 <= i < |nodes|
      ensures var a, b := ParseIncident(nodes[i], c1, parseDate), ParseIncident(nodes[i], c2, parseDate);
              a.id == b.id && a.status == b.status && |a.updates| == |b.updates|
    {
      assert nodes[i] in nodes;
      IncidentIgnoresClock(nodes[i], c1, c2, parseDate);
    }
  }

  /** The body of `fetchStatus` after a successful download: the snapshot of a loaded page. */
  function ExtractSnapshot(doc: Document, allowed: set<string>, clock: Clock, parseDate: DateParser): (s: Snapshot)
    ensures WellFormed(s)
    ensures forall i :: 0 <= i < |s.components| ==> s.components[i].0 in allowed
    ensures s.overall == ParseOverallStatus(doc)
    ensures s.timestamp == clock.iso
    ensures s.components == ParseComponents(doc.components, allowed, clock.iso)
    ensures s.incidents == ParseIncidents(doc.days, clock, parseDate)
  {
    Snapshot(ParseOverallStatus(doc), ParseComponents(doc.components, allowed, clock.iso),
             ParseIncidents(doc.days, clock, parseDate), clock.iso)
  }
}
