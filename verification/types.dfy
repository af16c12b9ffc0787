/**
 * The records the status checker builds and exchanges: snapshots of the
 * status page, incidents with their updates, and the change events the
 * differ emits.
 */
module StatusTypes {
  import opened Options
  import opened Entries

  /** The overall status level derived from the page's status class. */
  datatype Level = Operational | Degraded | Outage | Maintenance {
    function Name(): string {
      match this
      case Operational => "operational"
      case Degraded => "degraded"
      case Outage => "outage"
      case Maintenance => "maintenance"
    }
  }

  /** The impact class of an incident title. */
  datatype Impact = NoImpact | Minor | Major | Critical {
    function Name(): string {
      match this
      case NoImpact => "none"
      case Minor => "minor"
      case Major => "major"
      case Critical => "critical"
    }
  }

  /**
   * The instant one check runs at, as the three readings the checker takes of
   * the wall clock: `Date.now()` in milliseconds, `new Date().toISOString()`,
   * and `getFullYear()`.
   */
  datatype Clock = Clock(millis: nat, iso: string, year: nat)

  datatype Overall = Overall(description: string, level: Level)

  /** The value stored for one component: its status text and when it was read. */
  datatype ComponentState = ComponentState(status: string, timestamp: string)

  /** Component name to state, in the insertion order `Object.entries` reports. */
  type Components = seq<(string, ComponentState)>

  datatype Update = Update(status: string, message: string, timestamp: string)

  datatype Incident = Incident(id: string, name: string, impact: Impact, status: string, updates: seq<Update>)

  datatype Snapshot = Snapshot(overall: Overall, components: Components, incidents: seq<Incident>, timestamp: string)

  /** A change found between two snapshots. */
  datatype ChangeEvent =
    | StatusChange(message: string, timestamp: string, level: Level)
    | ComponentUpdate(message: string, timestamp: string, component: string)
    | NewIncident(incident: Incident)
    | IncidentUpdate(incident: Incident)
    | IncidentResolved(incident: Incident)

  /** The ids of a list of incidents, in list order. */
  function Ids(incidents: seq<Incident>): (ids: seq<string>)
    ensures |ids| == |incidents|
    ensures forall i :: 0 <= i < |incidents| ==> ids[i] == incidents[i].id
  {
    if |incidents| == 0 then [] else [incidents[0].id] + Ids(incidents[1..])
  }

  /** `incidents.find(i => i.id === id)`: the first incident with that id. */
  function FirstWithId(incidents: seq<Incident>, id: string): (r: Option<Incident>)
    ensures r.None? <==> id !in Ids(incidents)
    ensures r.Some? ==> var k := FirstIndex(Ids(incidents), id).value; r.value == incidents[k]
  {
    match FirstIndex(Ids(incidents), id)
    case None => None
    case Some(k) => Some(incidents[k])
  }

  /** A snapshot the extractor can produce has one entry per component name. */
  predicate WellFormed(s: Snapshot) {
    DistinctKeys(s.components)
  }
}
