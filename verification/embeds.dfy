/**
 * The embed helpers of the bot (`src/utils/embedUtils.js`): colour lookup,
 * name and status formatting, the status dot, the ordering of active
 * incidents, and which fields each embed carries. An embed is a plain record
 * of the values the builder is given.
 */
module Embeds {
  import opened Options
  import opened TextUtil
  import opened Entries
  import opened StatusTypes

  /** `STATUS_COLORS`, in declaration order. */
  const StatusColors: seq<(string, nat)> := [
    ("operational", 0x2ECC71),
    ("degraded", 0xF1C40F),
    ("outage", 0xE74C3C),
    ("maintenance", 0x3498DB),
    ("default", 0x95A5A6)
  ]

  const DefaultColor: nat := 0x95A5A6

  /** `STATUS_COLORS[key] || STATUS_COLORS.default`: a missing key or a zero colour falls back to grey. */
  function ColorOr(key: string): (c: nat)
    ensures Find(StatusColors, key).None? ==> c == DefaultColor
    ensures Find(StatusColors, key).Some? && Find(StatusColors, key).value != 0 ==> c == Find(StatusColors, key).value
  {
    match Find(StatusColors, key)
    case None => DefaultColor
    case Some(c) => if c == 0 then DefaultColor else c
  }

  /** Every status level has its own colour; the grey fallback is never used for a level. */
  lemma LevelColor(l: Level)
    ensures ColorOr(l.Name()) != DefaultColor
    ensures Find(StatusColors, l.Name()) == Some(ColorOr(l.Name()))
  {
    assert Keys(StatusColors) == ["operational", "degraded", "outage", "maintenance", "default"];
  }

  /** No impact name is a key of the table, so an incident embed is always grey. */
  lemma ImpactColor(i: Impact)
    ensures Find(StatusColors, i.Name()) == None
    ensures ColorOr(i.Name()) == DefaultColor
  {
    assert Keys(StatusColors) == ["operational", "degraded", "outage", "maintenance", "default"];
  }

  const BetaPattern: string := "- beta features"
  const BetaLabel: string := " (beta)"

  /**
   * `formatName`: lower-case, then replace the first `- beta features` by
   * ` (beta)`. The result has no capital letter; it is the lowercased name
   * when the pattern does not occur, and otherwise the lowercased name with
   * its first occurrence replaced and everything around it kept.
   */
  function FormatName(name: string): (r: string)
    ensures NoCapitals(r)
    ensures IndexOf(Lower(name), BetaPattern).None? ==> r == Lower(name)
    ensures IndexOf(Lower(name), BetaPattern).Some? ==> |r| == |name| - |BetaPattern| + |BetaLabel|
    ensures IndexOf(Lower(name), BetaPattern).Some? ==>
              var i := IndexOf(Lower(name), BetaPattern).value;
              r == Lower(name)[..i] + BetaLabel + Lower(name)[i + |BetaPattern|..]
  {
    ReplacedNoUpper(Lower(name));
    ReplaceFirst(Lower(name), BetaPattern, BetaLabel)
  }

  /** No ASCII capital letter occurs. */
  predicate NoCapitals(s: string) {
    forall i :: 0 <= i < |s| ==> !('A' <= s[i] <= 'Z')
  }

  lemma NoCapitalsJoin(a: string, b: string, c: string)
    requires NoCapitals(a) && NoCapitals(b) && NoCapitals(c)
    ensures NoCapitals(a + b + c)
  {
  }

  /** The replacement brings in no capital letter. */
  lemma ReplacedNoUpper(lower: string)
    requires NoCapitals(lower)
    ensures NoCapitals(ReplaceFirst(lower, BetaPattern, BetaLabel))
  {
    match IndexOf(lower, BetaPattern)
    case None =>
    case Some(k) =>
      var a, c := lower[..k], lower[k + |BetaPattern|..];
      assert NoCapitals(a) by {
        forall i | 0 <= i < |a| ensures !('A' <= a[i] <= 'Z') { assert a[i] == lower[i]; }
      }
      assert NoCapitals(c) by {
        forall i | 0 <= i < |c| ensures !('A' <= c[i] <= 'Z') { assert c[i] == lower[i + k + |BetaPattern|]; }
      }
      assert NoCapitals(BetaLabel);
      NoCapitalsJoin(a, BetaLabel, c);
  }

  /** Lower-casing works character by character, so it distributes over concatenation. */
  lemma LowerAppend(a: string, b: string)
    ensures Lower(a + b) == Lower(a) + Lower(b)
  {
  }

  lemma LowerBetaSuffix()
    ensures Lower(" - Beta Features") == " - beta features"
  {
    var suffix := " - Beta Features";
    var l := Lower(suffix);
    assert forall i :: 0 <= i < |suffix| ==> l[i] == LowerChar(suffix[i]);
  }

  /** Lower-casing never produces a dash. */
  lemma LowerNoDash(p: string)
    requires '-' !in p
    ensures '-' !in Lower(p)
  {
    var l := Lower(p);
    forall j | 0 <= j < |l| ensures l[j] != '-' {
      assert p[j] != '-';
    }
  }

  /** Where a text starts with `pat` and nothing before holds its first character, `indexOf` is that position. */
  lemma IndexOfAfterPrefix(a: string, b: string, pat: string)
    requires |pat| > 0 && pat[0] !in a && |pat| <= |b| && b[..|pat|] == pat
    ensures IndexOf(a + b, pat) == Some(|a|)
  {
    var s := a + b;
    assert s[|a|..|a| + |pat|] == b[..|pat|];
    forall j | 0 <= j < |a| ensures !OccursAt(s, pat, j) {
      assert s[j] == a[j];
      NotAt(s, pat, j, 0);
    }
    IndexOfAt(s, pat, |a|);
  }

  /** In a dash-free name followed by ` - Beta Features`, the pattern first occurs right after the name and its space. */
  lemma BetaSuffixIndex(p: string)
    requires '-' !in p
    ensures Lower(p + " - Beta Features") == Lower(p) + " - beta features"
    ensures IndexOf(Lower(p + " - Beta Features"), BetaPattern) == Some(|p| + 1)
  {
    LowerAppend(p, " - Beta Features");
    LowerBetaSuffix();
    LowerNoDash(p);
    var a := Lower(p) + " ";
    assert Lower(p) + " - beta features" == a + BetaPattern;
    IndexOfAfterPrefix(a, BetaPattern, BetaPattern);
  }

  /**
   * A dash-free name followed by ` - Beta Features` loses the suffix to
   * ` (beta)`, keeping the space before it: two spaces in all.
   */
  lemma FormatNameBetaSuffix(p: string)
    requires '-' !in p
    ensures FormatName(p + " - Beta Features") == Lower(p) + "  (beta)"
  {
    BetaSuffixIndex(p);
    var lower := Lower(p + " - Beta Features");
    var k := |p| + 1;
    var r := FormatName(p + " - Beta Features");
    assert r == r[..k] + r[k..k + |BetaLabel|] + r[k + |BetaLabel|..];
    assert lower[..k] == Lower(p) + " ";
  }

  /** `formatStatus`: capitals become their lower-case letters, and every other character stays. */
  function FormatStatus(status: string): (r: string)
    ensures |r| == |status|
    ensures forall i :: 0 <= i < |r| ==> !('A' <= r[i] <= 'Z')
    ensures forall i :: 0 <= i < |status| && !('A' <= status[i] <= 'Z') ==> r[i] == status[i]
    ensures forall i :: 0 <= i < |status| && 'A' <= status[i] <= 'Z' ==> r[i] as int == status[i] as int + 32
  {
    Lower(status)
  }

  const FilledDot: char := '\U{25CF}'
  const HollowDot: char := '\U{25CB}'
  const MiddleDot: char := '\U{00B7}'

  /** `getStatusDot`: filled when the text mentions operational, maintenance or resolved (case matters). */
  function StatusDot(status: string): (r: char)
    ensures r == FilledDot || r == HollowDot
  {
    if Contains(status, "operational") || Contains(status, "maintenance") || Contains(status, "resolved")
    then FilledDot else HollowDot
  }

  /** The dot is filled exactly when one of the three words occurs somewhere in the text. */
  lemma StatusDotIff(status: string)
    ensures StatusDot(status) == FilledDot <==>
              (exists i :: 0 <= i <= |status| && OccursAt(status, "operational", i))
              || (exists i :: 0 <= i <= |status| && OccursAt(status, "maintenance", i))
              || (exists i :: 0 <= i <= |status| && OccursAt(status, "resolved", i))
  {
    ContainsIff(status, "operational");
    ContainsIff(status, "maintenance");
    ContainsIff(status, "resolved");
  }

  /** A position where `pat` does not start, shown by one differing character. */
  lemma NotAt(s: string, pat: string, i: nat, k: nat)
    requires i + k < |s| && k < |pat| && s[i + k] != pat[k]
    ensures !OccursAt(s, pat, i)
  {
  }

  lemma ContainsSelf(s: string)
    ensures Contains(s, s)
  {
    assert OccursAt(s, s, 0);
  }

  /** The dot of an overall level: filled for operational and maintenance, hollow for degraded and outage. */
  lemma LevelDot(l: Level)
    ensures StatusDot(l.Name()) == FilledDot <==> l.Operational? || l.Maintenance?
  {
    ContainsSelf(l.Name());
    if l.Degraded? {
      NotAt("degraded", "resolved", 0, 0);
    }
  }

  /** Matching is case-sensitive: a capitalised `Operational` gets the hollow dot. */
  lemma CapitalisedStatusIsHollow()
    ensures StatusDot("Operational") == HollowDot
    ensures StatusDot("operational") == FilledDot
  {
    var s := "Operational";
    NotAt(s, "operational", 0, 0);
    NotAt(s, "maintenance", 0, 0);
    forall j | 0 <= j <= |s| ensures !OccursAt(s, "resolved", j) {
      if j <= 3 {
        assert s[j] != 'r' || s[j + 1] != 'e';
      }
    }
    ContainsSelf("operational");
  }

  /** The sort key of `createStatusEmbed`: critical 3, major 2, minor 1, none 0. */
  function Priority(i: Incident): nat {
    match i.impact
    case Critical => 3
    case Major => 2
    case Minor => 1
    case NoImpact => 0
  }

  /** `incidents.filter(i => i.status !== 'resolved')`. */
  function Unresolved(incidents: seq<Incident>): (r: seq<Incident>)
    ensures forall x :: x in r <==> x in incidents && x.status != ResolvedText
    ensures |r| <= |incidents|
    ensures |incidents| == 1 ==> r == if incidents[0].status != ResolvedText then incidents else []
  {
    if |incidents| == 0 then []
    else
      var rest := Unresolved(incidents[1..]);
      assert forall x :: x in incidents <==> x == incidents[0] || x in incidents[1..];
      (if incidents[0].status != ResolvedText then [incidents[0]] else []) + rest
  }

  const ResolvedText: string := "resolved"

  /** The filter keeps order and repeats: filtering a concatenation filters each part. */
  lemma {:induction false} UnresolvedAppend(a: seq<Incident>, b: seq<Incident>)
    ensures Unresolved(a + b) == Unresolved(a) + Unresolved(b)
  {
    if |a| == 0 {
      assert a + b == b;
    } else {
      assert (a + b)[0] == a[0];
      assert (a + b)[1..] == a[1..] + b;
      UnresolvedAppend(a[1..], b);
    }
  }

  /** Non-increasing priority. */
  predicate SortedByPriority(s: seq<Incident>) {
    forall i, j :: 0 <= i < j < |s| ==> Priority(s[i]) >= Priority(s[j])
  }

  /** Place `x` in front of the first element it does not rank below: an earlier element stays ahead of its equals. */
  function Insert(x: Incident, t: seq<Incident>): seq<Incident> {
    if |t| == 0 || Priority(t[0]) <= Priority(x) then [x] + t
    else [t[0]] + Insert(x, t[1..])
  }

  /** `Array.prototype.sort` with the priority comparator, written as a stable insertion sort; it neither adds nor drops. */
  function SortByPriority(s: seq<Incident>): (r: seq<Incident>)
    ensures multiset(r) == multiset(s)
  {
    if |s| == 0 then []
    else
      InsertMultiset(s[0], SortByPriority(s[1..]));
      assert s == [s[0]] + s[1..];
      Insert(s[0], SortByPriority(s[1..]))
  }

  /** The incidents of one priority, in their original order. */
  function Bucket(s: seq<Incident>, p: nat): seq<Incident> {
    if |s| == 0 then []
    else (if Priority(s[0]) == p then [s[0]] else []) + Bucket(s[1..], p)
  }

  /** The buckets from priority `p` down to 0, highest first: the reference order of a stable sort. */
  function Layered(s: seq<Incident>, p: nat): seq<Incident> {
    Bucket(s, p) + (if p == 0 then [] else Layered(s, p - 1))
  }

  lemma {:induction false} BucketMembers(s: seq<Incident>, p: nat)
    ensures forall x :: x in Bucket(s, p) ==> x in s && Priority(x) == p
  {
    if |s| > 0 {
      BucketMembers(s[1..], p);
    }
  }

  lemma {:induction false} LayeredBound(s: seq<Incident>, p: nat)
    ensures forall x :: x in Layered(s, p) ==> Priority(x) <= p
  {
    BucketMembers(s, p);
    if p > 0 {
      LayeredBound(s, p - 1);
    }
  }

  /** Inserting adds exactly the one element. */
  lemma {:induction false} InsertMultiset(x: Incident, t: seq<Incident>)
    ensures multiset(Insert(x, t)) == multiset(t) + multiset{x}
  {
    if |t| > 0 && Priority(t[0]) > Priority(x) {
      InsertMultiset(x, t[1..]);
      assert t == [t[0]] + t[1..];
    }
  }

  lemma {:induction false} InsertPast(x: Incident, a: seq<Incident>, b: seq<Incident>)
    requires forall y :: y in a ==> Priority(y) > Priority(x)
    ensures Insert(x, a + b) == a + Insert(x, b)
  {
    if |a| == 0 {
      assert a + b == b;
    } else {
      assert (a + b)[0] == a[0];
      assert (a + b)[1..] == a[1..] + b;
      InsertPast(x, a[1..], b);
    }
  }

  /** An element ranked above a priority is in none of the buckets up to it. */
  lemma {:induction false} LayeredSkips(x: Incident, t: seq<Incident>, p: nat)
    requires Priority(x) > p
    ensures Layered([x] + t, p) == Layered(t, p)
  {
    assert ([x] + t)[1..] == t;
    assert Bucket([x] + t, p) == Bucket(t, p);
    if p > 0 {
      LayeredSkips(x, t, p - 1);
    }
  }

  /** An element goes in front of layers that hold nothing ranked above it. */
  lemma {:induction false} InsertOwnLayer(x: Incident, t: seq<Incident>)
    ensures Insert(x, Layered(t, Priority(x))) == Layered([x] + t, Priority(x))
  {
    var p := Priority(x);
    var l := Layered(t, p);
    var rest := if p == 0 then [] else Layered(t, p - 1);
    assert l == Bucket(t, p) + rest;
    LayeredBound(t, p);
    assert Insert(x, l) == [x] + l by {
      if |l| > 0 {
        assert l[0] in l;
      }
    }
    assert ([x] + t)[1..] == t;
    assert Bucket([x] + t, p) == [x] + Bucket(t, p);
    if p > 0 {
      LayeredSkips(x, t, p - 1);
    }
    assert Layered([x] + t, p) == Bucket([x] + t, p) + rest;
    ConcatAssoc([x], Bucket(t, p), rest);
  }

  /** Inserting into the layers puts the element at the front of its own bucket. */
  lemma {:induction false} InsertLayered(x: Incident, t: seq<Incident>, p: nat)
    requires Priority(x) <= p
    ensures Insert(x, Layered(t, p)) == Layered([x] + t, p)
    decreases p, 1
  {
    if Priority(x) == p {
      InsertOwnLayer(x, t);
    } else {
      InsertBelowLayer(x, t, p);
    }
  }

  /** Below its own priority the element passes the whole bucket of `p`. */
  lemma {:induction false} InsertBelowLayer(x: Incident, t: seq<Incident>, p: nat)
    requires Priority(x) < p
    ensures Insert(x, Layered(t, p)) == Layered([x] + t, p)
    decreases p, 0
  {
    InsertLayered(x, t, p - 1);
    PassBucket(x, t, p);
  }

  /** Passing the bucket of `p` reduces inserting into the layers from `p` to inserting into those below it. */
  lemma PassBucket(x: Incident, t: seq<Incident>, p: nat)
    requires 0 < p && Priority(x) < p
    requires Insert(x, Layered(t, p - 1)) == Layered([x] + t, p - 1)
    ensures Insert(x, Layered(t, p)) == Layered([x] + t, p)
  {
    BucketMembers(t, p);
    InsertPast(x, Bucket(t, p), Layered(t, p - 1));
    BucketSkip(x, t, p);
  }

  /** An element of another priority is not in the bucket. */
  lemma BucketSkip(x: Incident, t: seq<Incident>, p: nat)
    requires Priority(x) != p
    ensures Bucket([x] + t, p) == Bucket(t, p)
  {
    assert ([x] + t)[1..] == t;
  }

  lemma {:induction false} LayeredEmpty(s: seq<Incident>, p: nat)
    requires |s| == 0
    ensures Layered(s, p) == []
  {
    if p > 0 {
      LayeredEmpty(s, p - 1);
    }
  }

  /** The sort produces the priority buckets, highest first. */
  lemma {:induction false} SortIsLayered(s: seq<Incident>)
    ensures SortByPriority(s) == Layered(s, 3)
  {
    if |s| > 0 {
      SortIsLayered(s[1..]);
      InsertLayered(s[0], s[1..], 3);
      assert [s[0]] + s[1..] == s;
      assert SortByPriority(s) == Insert(s[0], SortByPriority(s[1..]));
    } else {
      LayeredEmpty(s, 3);
    }
  }

  /** Two sorted runs, the first not below the second, make a sorted run. */
  lemma SortedAppend(a: seq<Incident>, b: seq<Incident>)
    requires SortedByPriority(a) && SortedByPriority(b)
    requires forall x, y :: x in a && y in b ==> Priority(x) >= Priority(y)
    ensures SortedByPriority(a + b)
  {
    forall i, j | 0 <= i < j < |a + b| ensures Priority((a + b)[i]) >= Priority((a + b)[j]) {
      if i < |a| && j >= |a| {
        assert (a + b)[i] in a && (a + b)[j] in b;
      }
    }
  }

  /** The layers are in non-increasing priority. */
  lemma {:induction false} LayeredSorted(s: seq<Incident>, p: nat)
    ensures SortedByPriority(Layered(s, p))
  {
    var b := Bucket(s, p);
    BucketMembers(s, p);
    assert SortedByPriority(b) by {
      forall i, j | 0 <= i < j < |b| ensures Priority(b[i]) >= Priority(b[j]) {
        assert b[i] in b && b[j] in b;
      }
    }
    if p > 0 {
      LayeredSorted(s, p - 1);
      LayeredBound(s, p - 1);
      SortedAppend(b, Layered(s, p - 1));
    } else {
      assert Layered(s, p) == b + [];
      SortedAppend(b, []);
    }
  }

  lemma {:induction false} BucketAppend(a: seq<Incident>, b: seq<Incident>, p: nat)
    ensures Bucket(a + b, p) == Bucket(a, p) + Bucket(b, p)
  {
    if |a| == 0 {
      assert a + b == b;
    } else {
      var h := if Priority(a[0]) == p then [a[0]] else [];
      assert (a + b)[0] == a[0];
      assert (a + b)[1..] == a[1..] + b;
      assert Bucket(a + b, p) == h + Bucket(a[1..] + b, p);
      BucketAppend(a[1..], b, p);
      assert Bucket(a, p) == h + Bucket(a[1..], p);
    }
  }

  lemma {:induction false} BucketOfBucket(s: seq<Incident>, p: nat, q: nat)
    ensures Bucket(Bucket(s, q), p) == if p == q then Bucket(s, p) else []
  {
    if |s| > 0 {
      BucketOfBucket(s[1..], p, q);
      var head := if Priority(s[0]) == q then [s[0]] else [];
      BucketAppend(head, Bucket(s[1..], q), p);
      assert head == [] || head[1..] == [];
    }
  }

  lemma {:induction false} BucketOfLayered(s: seq<Incident>, p: nat, k: nat)
    ensures Bucket(Layered(s, k), p) == if p <= k then Bucket(s, p) else []
  {
    var below: seq<Incident> := if k == 0 then [] else Layered(s, k - 1);
    assert Layered(s, k) == Bucket(s, k) + below;
    BucketAppend(Bucket(s, k), below, p);
    BucketOfBucket(s, p, k);
    if k > 0 {
      BucketOfLayered(s, p, k - 1);
    }
  }

  /**
   * The sort is stable: the incidents of any one priority keep their
   * original relative order.
   */
  lemma SortIsStable(s: seq<Incident>, p: nat)
    requires p <= 3
    ensures Bucket(SortByPriority(s), p) == Bucket(s, p)
  {
    SortIsLayered(s);
    BucketOfLayered(s, p, 3);
  }

  /** The active incidents of `createStatusEmbed`, most severe first. */
  function ActiveIncidents(incidents: seq<Incident>): (r: seq<Incident>)
    ensures forall x :: x in r <==> x in incidents && x.status != ResolvedText
    ensures multiset(r) == multiset(Unresolved(incidents))
    ensures SortedByPriority(r)
  {
    var u := Unresolved(incidents);
    SortIsLayered(u);
    LayeredSorted(u, 3);
    var r := SortByPriority(u);
    assert forall x :: x in r <==> x in multiset(r);
    r
  }

  /** Taking one priority and dropping the resolved incidents can be done in either order. */
  lemma {:induction false} BucketUnresolved(s: seq<Incident>, p: nat)
    ensures Bucket(Unresolved(s), p) == Unresolved(Bucket(s, p))
  {
    if |s| > 0 {
      BucketUnresolved(s[1..], p);
      var head := if s[0].status != ResolvedText then [s[0]] else [];
      BucketAppend(head, Unresolved(s[1..]), p);
      var b := if Priority(s[0]) == p then [s[0]] else [];
      UnresolvedAppend(b, Bucket(s[1..], p));
      assert head == [] || head[1..] == [];
    }
  }

  /**
   * For each priority, the active incidents of that priority are exactly the
   * unresolved incidents of that priority, in the order of the input list.
   */
  lemma ActiveIncidentsStable(incidents: seq<Incident>, p: nat)
    requires p <= 3
    ensures Bucket(ActiveIncidents(incidents), p) == Bucket(Unresolved(incidents), p)
    ensures Bucket(ActiveIncidents(incidents), p) == Unresolved(Bucket(incidents, p))
  {
    SortIsStable(Unresolved(incidents), p);
    BucketUnresolved(incidents, p);
  }

  datatype Field = Field(name: string, value: string)

  /** What the embed builder is given; the builder's own timestamp is not modelled. */
  datatype Embed = Embed(title: string, description: string, color: nat, footer: Option<string>, fields: seq<Field>)

  /** The field names of an embed, in the order the fields were added. */
  function FieldNames(e: Embed): (names: seq<string>)
    ensures |names| == |e.fields|
  {
    seq(|e.fields|, k requires 0 <= k < |e.fields| => e.fields[k].name)
  }

  predicate HasField(e: Embed, name: string) {
    name in FieldNames(e)
  }

  function ComponentFieldLine(entry: (string, ComponentState)): string {
    [StatusDot(entry.1.status)] + " " + FormatName(entry.0) + " " + [MiddleDot] + " " + FormatStatus(entry.1.status)
  }

  function IncidentLine(i: Incident): string {
    [StatusDot(i.status)] + " " + FormatStatus(i.name) + "\n    status: " + FormatStatus(i.status)
  }

  /** The joined lines of a list, one per element, each non-empty: the text is empty exactly when the list is. */
  lemma JoinedLinesEmpty(lines: seq<string>, sep: string)
    requires forall i :: 0 <= i < |lines| ==> |lines[i]| > 0
    ensures Join(lines, sep) == [] <==> |lines| == 0
  {
    JoinNonEmpty(lines, sep);
    if |lines| > 0 {
      assert lines[0] != [];
    }
  }

  function ComponentText(components: Components): (r: string)
    ensures r == [] <==> |components| == 0
  {
    var lines := seq(|components|, i requires 0 <= i < |components| => ComponentFieldLine(components[i]));
    JoinedLinesEmpty(lines, "\n");
    Join(lines, "\n")
  }

  function IncidentText(active: seq<Incident>): string {
    Join(seq(|active|, i requires 0 <= i < |active| => IncidentLine(active[i])), "\n\n")
  }

  const ComponentsField: string := "components"
  const ActiveIncidentsField: string := "active incidents"
  const UpdatesField: string := "updates"

  /** A field that is added only when its condition holds. */
  function FieldIf(present: bool, name: string, value: string): (fs: seq<Field>)
    ensures |fs| <= 1
    ensures forall k :: 0 <= k < |fs| ==> fs[k].name == name
    ensures present <==> |fs| == 1
  {
    if present then [Field(name, value)] else []
  }

  /** `createStatusEmbed`: a fixed title and footer, and the overall dot before the lowercased description. */
  function StatusEmbed(s: Snapshot): (e: Embed)
    ensures e.title == "anthropic status" && e.footer == Some("last updated")
    ensures |e.description| == |s.overall.description| + 2
    ensures e.description[0] == StatusDot(s.overall.level.Name()) && e.description[1] == ' '
    ensures e.description[2..] == FormatStatus(s.overall.description)
  {
    var text := ComponentText(s.components);
    var active := ActiveIncidents(s.incidents);
    Embed("anthropic status",
          [StatusDot(s.overall.level.Name())] + " " + FormatStatus(s.overall.description),
          ColorOr(s.overall.level.Name()),
          Some("last updated"),
          FieldIf(text != [], ComponentsField, text) + FieldIf(|active| > 0, ActiveIncidentsField, IncidentText(active)))
  }

  /** Names of two optional fields: each is present exactly when its condition holds. */
  lemma TwoFields(e: Embed, a: seq<Field>, b: seq<Field>, na: string, nb: string)
    requires e.fields == a + b && na != nb
    requires |a| <= 1 && |b| <= 1
    requires forall k :: 0 <= k < |a| ==> a[k].name == na
    requires forall k :: 0 <= k < |b| ==> b[k].name == nb
    ensures HasField(e, na) <==> |a| == 1
    ensures HasField(e, nb) <==> |b| == 1
    ensures FieldNames(e) == (if |a| == 1 then [na] else []) + (if |b| == 1 then [nb] else [])
  {
    var names := FieldNames(e);
    assert forall k :: 0 <= k < |names| ==> names[k] == (a + b)[k].name;
    if |a| == 1 {
      assert names[0] == na;
    }
    if |b| == 1 {
      assert names[|a|] == nb;
    }
  }

  /**
   * The status embed carries the components field exactly when there are
   * components, and then the active-incidents field exactly when some
   * incident is not resolved; nothing else.
   */
  lemma StatusEmbedFields(s: Snapshot)
    ensures var e := StatusEmbed(s);
            && FieldNames(e) == (if |s.components| > 0 then [ComponentsField] else [])
                                + (if exists x :: x in s.incidents && x.status != ResolvedText then [ActiveIncidentsField] else [])
            && (HasField(e, ComponentsField) <==> |s.components| > 0)
            && (HasField(e, ActiveIncidentsField) <==> exists x :: x in s.incidents && x.status != ResolvedText)
  {
    var e := StatusEmbed(s);
    var text := ComponentText(s.components);
    var active := ActiveIncidents(s.incidents);
    TwoFields(e, FieldIf(text != [], ComponentsField, text), FieldIf(|active| > 0, ActiveIncidentsField, IncidentText(active)),
              ComponentsField, ActiveIncidentsField);
    if |active| > 0 {
      assert active[0] in active;
    }
  }

  /** The status embed shows the level's own colour and its dot: filled for operational and maintenance. */
  lemma StatusEmbedLook(s: Snapshot)
    ensures var e := StatusEmbed(s);
            && e.color != DefaultColor
            && Find(StatusColors, s.overall.level.Name()) == Some(e.color)
            && (e.description[0] == FilledDot <==> s.overall.level.Operational? || s.overall.level.Maintenance?)
  {
    LevelColor(s.overall.level);
    LevelDot(s.overall.level);
  }

  function UpdateLine(u: Update, formatDate: string -> string): string {
    [StatusDot(u.status)] + " " + FormatStatus(u.status) + "  " + [MiddleDot] + "  " + formatDate(u.timestamp)
    + "\n    " + FormatStatus(u.message)
  }

  function UpdatesText(updates: seq<Update>, formatDate: string -> string): string {
    Join(seq(|updates|, i requires 0 <= i < |updates| => UpdateLine(updates[i], formatDate)), "\n\n")
  }

  /**
   * `createIncidentEmbed`; `formatDate` stands for `new Date(timestamp).toLocaleString()`.
   * The title is the lowercased name, there is no footer, and the one possible
   * field is the updates field.
   */
  function IncidentEmbed(inc: Incident, formatDate: string -> string): (e: Embed)
    ensures e.title == FormatStatus(inc.name) && e.footer.None?
    ensures FieldNames(e) == if |inc.updates| > 0 then [UpdatesField] else []
    ensures e.description == "impact: " + FormatStatus(inc.impact.Name()) + "\n"
                             + [StatusDot(inc.status)] + " status: " + FormatStatus(inc.status) + "\n\ntimeline:"
    ensures |inc.updates| > 0 ==> e.fields == [Field(UpdatesField, UpdatesText(inc.updates, formatDate))]
  {
    Embed(FormatStatus(inc.name),
          "impact: " + FormatStatus(inc.impact.Name()) + "\n" + [StatusDot(inc.status)] + " status: " + FormatStatus(inc.status) + "\n\ntimeline:",
          ColorOr(inc.impact.Name()),
          None,
          FieldIf(|inc.updates| > 0, UpdatesField, UpdatesText(inc.updates, formatDate)))
  }

  /**
   * Read line by line, the incident description is the impact line, the
   * status line, an empty line and `timeline:`, when the status holds no
   * newline.
   */
  lemma IncidentDescriptionLines(inc: Incident, formatDate: string -> string)
    requires '\n' !in inc.status
    ensures Split(IncidentEmbed(inc, formatDate).description, '\n')
            == ["impact: " + FormatStatus(inc.impact.Name()),
                [StatusDot(inc.status)] + " status: " + FormatStatus(inc.status),
                "",
                "timeline:"]
  {
    assert '\n' !in inc.impact.Name() by {
      match inc.impact
      case NoImpact =>
      case Minor =>
      case Major =>
      case Critical =>
    }
    DescriptionLines(inc.impact.Name(), StatusDot(inc.status), inc.status, IncidentEmbed(inc, formatDate).description);
  }

  /** The line split of an incident description, over its plain parts. */
  lemma DescriptionLines(impactName: string, dot: char, status: string, d: string)
    requires '\n' !in impactName && '\n' !in status && dot != '\n'
    requires d == "impact: " + FormatStatus(impactName) + "\n" + [dot] + " status: " + FormatStatus(status) + "\n\ntimeline:"
    ensures Split(d, '\n') == ["impact: " + FormatStatus(impactName), [dot] + " status: " + FormatStatus(status), "", "timeline:"]
  {
    var impact := "impact: " + FormatStatus(impactName);
    var line := [dot] + " status: " + FormatStatus(status);
    NoNewlineFormatted(impactName);
    NoNewlineFormatted(status);
    assert '\n' !in impact && '\n' !in line;
    assert d == impact + ['\n'] + (line + ['\n'] + ("" + ['\n'] + "timeline:"));
    assert '\n' !in "timeline:";
    SplitFour(impact, line, "", "timeline:", '\n');
  }

  /** Lower-casing neither adds nor removes a newline. */
  lemma NoNewlineFormatted(s: string)
    requires '\n' !in s
    ensures '\n' !in FormatStatus(s)
  {
    var r := FormatStatus(s);
    forall i | 0 <= i < |r| ensures r[i] != '\n' {
      assert s[i] in s;
    }
  }

  /** The incident embed is always grey, and has the updates field exactly when the incident has updates. */
  lemma IncidentEmbedFields(inc: Incident, formatDate: string -> string)
    ensures var e := IncidentEmbed(inc, formatDate);
            && e.color == DefaultColor
            && |e.fields| <= 1
            && (HasField(e, UpdatesField) <==> |inc.updates| > 0)
  {
    var e := IncidentEmbed(inc, formatDate);
    ImpactColor(inc.impact);
    if |inc.updates| > 0 {
      assert FieldNames(e)[0] == UpdatesField;
    }
  }
}
