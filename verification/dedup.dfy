/**
 * The checker's memory of recently reported messages (`#recentMessages` and
 * `#isDuplicate`): an insertion-ordered map from `message-timestamp` keys to
 * the millisecond instant they were first seen. Expired entries are swept
 * only when the size is a non-zero multiple of 100, and once the size exceeds
 * 1000 the oldest entry is evicted.
 */
module Dedup {
  import opened Options
  import opened Entries

  const MessageExpiry: int := 60000
  const SweepPeriod: nat := 100
  const MaxEntries: nat := 1000

  /** Key to first-seen instant, oldest first. */
  type Cache = seq<(string, int)>

  /** The shape every reachable cache has: one entry per key, and at most 1001 entries. */
  predicate Valid(c: Cache) {
    DistinctKeys(c) && |c| <= MaxEntries + 1
  }

  /** The identity of a message: its text, a dash, then its timestamp. */
  function Key(message: string, timestamp: string): (k: string)
    ensures |k| == |message| + 1 + |timestamp|
    ensures k[..|message|] == message && k[|message|] == '-' && k[|message| + 1..] == timestamp
  {
    message + "-" + timestamp
  }

  /** Two messages stamped alike share a key only when they are the same text. */
  lemma KeyOfSameTimestamp(m1: string, m2: string, timestamp: string)
    requires Key(m1, timestamp) == Key(m2, timestamp)
    ensures m1 == m2
  {
  }

  /** The dash is not escaped, so a dash in the message can make two different pairs share a key. */
  lemma KeyAmbiguity()
    ensures Key("a-b", "c") == Key("a", "b-c")
  {
  }

  /** The entries not older than `cutoff`, in their original order. */
  function Expire(c: Cache, cutoff: int): (r: Cache)
    ensures |r| <= |c|
    ensures forall e :: e in r <==> e in c && e.1 >= cutoff
    ensures DistinctKeys(c) ==> DistinctKeys(r)
    ensures |c| == 1 ==> r == if c[0].1 >= cutoff then c else []
  {
    if |c| == 0 then []
    else
      var rest := Expire(c[1..], cutoff);
      assert forall e :: e in c <==> e == c[0] || e in c[1..];
      if c[0].1 < cutoff then rest
      else
        assert DistinctKeys(c) ==> forall e :: e in rest ==> e.0 != c[0].0;
        [c[0]] + rest
  }

  /** The periodic clean-up: runs only when the size is a non-zero multiple of 100. */
  function Sweep(c: Cache, now: int): (r: Cache)
    ensures |c| == 0 || |c| % SweepPeriod != 0 ==> r == c
    ensures |c| > 0 && |c| % SweepPeriod == 0 ==>
              forall e :: e in r <==> e in c && e.1 >= now - MessageExpiry
    ensures |c| > 0 && |c| % SweepPeriod == 0 ==> r == Expire(c, now - MessageExpiry)
    ensures |r| <= |c|
    ensures DistinctKeys(c) ==> DistinctKeys(r)
  {
    if |c| > 0 && |c| % SweepPeriod == 0 then Expire(c, now - MessageExpiry) else c
  }

  /**
   * The sweep deletes entries while iterating the map, so the survivors keep
   * their insertion order: expiring a concatenation expires each part.
   */
  lemma {:induction false} ExpireAppend(a: Cache, b: Cache, cutoff: int)
    ensures Expire(a + b, cutoff) == Expire(a, cutoff) + Expire(b, cutoff)
  {
    if |a| == 0 {
      assert a + b == b;
    } else {
      assert (a + b)[0] == a[0];
      assert (a + b)[1..] == a[1..] + b;
      ExpireAppend(a[1..], b, cutoff);
    }
  }

  /** A size at which a sweep is due is never 1001: 1001 is not a multiple of 100. */
  lemma SweptSizeBound(n: nat)
    ensures n % SweepPeriod == 0 && n <= MaxEntries + 1 ==> n <= MaxEntries
  {
    var q := n / SweepPeriod;
    assert n == q * SweepPeriod + n % SweepPeriod;
  }

  /** The size cap: above 1000 entries, drop the oldest-inserted one. */
  function Evict(c: Cache): (r: Cache)
    ensures |c| <= MaxEntries ==> r == c
    ensures |c| > MaxEntries ==> |r| == |c| - 1 && forall i :: 0 <= i < |r| ==> r[i] == c[i + 1]
  {
    if |c| > MaxEntries then c[1..] else c
  }

  /** The oldest key is the one eviction removes, and no other. */
  lemma EvictRemovesOldest(c: Cache)
    requires DistinctKeys(c) && |c| > MaxEntries
    ensures !HasKey(Evict(c), c[0].0)
    ensures forall i :: 1 <= i < |c| ==> HasKey(Evict(c), c[i].0)
  {
    var r := Evict(c);
    forall i | 1 <= i < |c| ensures HasKey(r, c[i].0) {
      assert Keys(r)[i - 1] == c[i].0;
    }
  }

  datatype Verdict = Verdict(duplicate: bool, cache: Cache)

  /**
   * The entries left after the sweep and the size cap: the cache itself, or
   * its expired-free part when a sweep is due, then without its first entry
   * when that still leaves more than 1000.
   */
  function Kept(c: Cache, now: int): (r: Cache)
    ensures var s := if |c| > 0 && |c| % SweepPeriod == 0 then Expire(c, now - MessageExpiry) else c;
            r == if |s| > MaxEntries then s[1..] else s
    ensures forall e :: e in r ==> e in c
    ensures DistinctKeys(c) ==> DistinctKeys(r)
    ensures |c| <= MaxEntries + 1 ==> |r| <= MaxEntries
    ensures |c| % SweepPeriod != 0 && |c| <= MaxEntries ==> r == c
  {
    var s := Sweep(c, now);
    var r := Evict(s);
    assert forall e :: e in r ==> e in s;
    r
  }

  /** `#isDuplicate(message, timestamp)` at instant `now`. */
  function IsDuplicate(c: Cache, message: string, timestamp: string, now: int): (r: Verdict)
    ensures Valid(c) ==> Valid(r.cache)
    ensures r.duplicate ==> HasKey(c, Key(message, timestamp))
    ensures !r.duplicate ==> Find(r.cache, Key(message, timestamp)) == Some(now)
    ensures r.duplicate <==> HasKey(Kept(c, now), Key(message, timestamp))
    ensures r.cache == if r.duplicate then Kept(c, now) else Kept(c, now) + [(Key(message, timestamp), now)]
  {
    var key := Key(message, timestamp);
    var kept := Kept(c, now);
    SubEntries(kept, c, key);
    if HasKey(kept, key) then Verdict(true, kept)
    else
      Record(kept, key, now);
      Verdict(false, kept + [(key, now)])
  }

  /** Appending a key not yet present keeps the keys distinct and records its instant. */
  lemma Record(c: Cache, key: string, now: int)
    requires !HasKey(c, key)
    ensures Find(c + [(key, now)], key) == Some(now)
    ensures DistinctKeys(c) ==> DistinctKeys(c + [(key, now)])
  {
    AppendFind(c, key, now);
    assert Keys(c + [(key, now)]) == Keys(c) + [key];
  }

  /** A suppressed message keeps the instant it was first seen: a repeat never refreshes it. */
  lemma DuplicateKeepsInstant(c: Cache, message: string, timestamp: string, now: int)
    requires DistinctKeys(c)
    ensures var r := IsDuplicate(c, message, timestamp, now);
            r.duplicate ==> Find(r.cache, Key(message, timestamp)) == Find(c, Key(message, timestamp))
  {
    SubEntries(Kept(c, now), c, Key(message, timestamp));
  }

  /** A call records no key but its own. */
  lemma OnlyOwnKeyAdded(c: Cache, message: string, timestamp: string, now: int, k: string)
    ensures HasKey(IsDuplicate(c, message, timestamp, now).cache, k) ==> HasKey(c, k) || k == Key(message, timestamp)
  {
    var key := Key(message, timestamp);
    var kept := Kept(c, now);
    SubEntries(kept, c, k);
    if !HasKey(kept, key) {
      assert Keys(kept + [(key, now)]) == Keys(kept) + [key];
    }
  }

  /** While no sweep and no eviction is due, the verdict is exactly whether the key was recorded before. */
  lemma QuietVerdict(c: Cache, message: string, timestamp: string, now: int)
    requires |c| % SweepPeriod != 0 && |c| <= MaxEntries
    ensures IsDuplicate(c, message, timestamp, now).duplicate <==> HasKey(c, Key(message, timestamp))
  {
  }

  lemma AppendFind(m: Cache, k: string, v: int)
    requires !HasKey(m, k)
    ensures Find(m + [(k, v)], k) == Some(v)
  {
    if |m| > 0 {
      assert (m + [(k, v)])[1..] == m[1..] + [(k, v)];
      assert Keys(m) == [m[0].0] + Keys(m[1..]);
      AppendFind(m[1..], k, v);
    }
  }

  /** The newest entry of a valid cache survives the next sweep and cap while it is inside the window. */
  lemma NewestSurvives(c1: Cache, key: string, now: int, later: int)
    requires Valid(c1) && |c1| > 0 && c1[|c1| - 1] == (key, now)
    requires now <= later <= now + MessageExpiry
    ensures HasKey(Kept(c1, later), key)
  {
    var s := Sweep(c1, later);
    assert (key, now) in c1;
    assert (key, now) in s;
    var i :| 0 <= i < |s| && s[i] == (key, now);
    SweptSizeBound(|c1|);
    if |s| > MaxEntries {
      assert s == c1;
      assert i == |c1| - 1 by {
        assert Keys(c1)[i] == key && Keys(c1)[|c1| - 1] == key;
      }
      assert Keys(Evict(s))[i - 1] == key;
    } else {
      assert Keys(s)[i] == key;
    }
  }

  /**
   * An entry inside the 60-second window survives any call while the cache
   * holds at most 1000 entries: a sweep keeps it, and no eviction is due.
   */
  lemma YoungEntrySurvives(c: Cache, message: string, timestamp: string, now: int, e: (string, int))
    requires e in c && e.1 >= now - MessageExpiry && |c| <= MaxEntries
    ensures e in IsDuplicate(c, message, timestamp, now).cache
  {
    assert e in Sweep(c, now);
  }

  /** A message is reported the first time, and an immediate repeat is suppressed without refreshing its instant. */
  lemma RepeatIsDuplicate(c: Cache, message: string, timestamp: string, now: int, later: int)
    requires Valid(c) && !HasKey(c, Key(message, timestamp))
    requires now <= later <= now + MessageExpiry
    ensures !IsDuplicate(c, message, timestamp, now).duplicate
    ensures var c1 := IsDuplicate(c, message, timestamp, now).cache;
            && IsDuplicate(c1, message, timestamp, later).duplicate
            && Find(IsDuplicate(c1, message, timestamp, later).cache, Key(message, timestamp)) == Some(now)
  {
    var key := Key(message, timestamp);
    var c1 := IsDuplicate(c, message, timestamp, now).cache;
    assert c1 == Kept(c, now) + [(key, now)];
    NewestSurvives(c1, key, now, later);
    DuplicateKeepsInstant(c1, message, timestamp, later);
  }

  /** After the window has passed, a due sweep forgets the message, so it is reported again. */
  lemma ExpiredIsNotDuplicate(c: Cache, message: string, timestamp: string, now: int)
    requires Valid(c)
    requires |c| > 0 && |c| % SweepPeriod == 0
    requires Find(c, Key(message, timestamp)).Some?
    requires Find(c, Key(message, timestamp)).value < now - MessageExpiry
    ensures !IsDuplicate(c, message, timestamp, now).duplicate
  {
    var key := Key(message, timestamp);
    var t := Find(c, key).value;
    var s := Sweep(c, now);
    SweptSizeBound(|c|);
    assert Kept(c, now) == s;
    assert !HasKey(s, key) by {
      forall e | e in s ensures e.0 != key {
        assert e in c && e.1 >= now - MessageExpiry;
        var j :| 0 <= j < |c| && c[j] == e;
        if e.0 == key {
          FindDistinct(c, j);
        }
      }
    }
  }
}
