/** De-duplication of observed messages: hashes are remembered, in the order they were first
    seen, until a bounded periodic cleanup forgets the old ones. */
module VaaSpies {
  import opened Wrappers

  type Hash = nat

  /** One entry of the insertion-ordered map: a hash and the time, in milliseconds, it was seen. */
  datatype Seen = Seen(hash: Hash, time: int)

  ghost predicate Knows(entries: seq<Seen>, hash: Hash) {
    exists i :: 0 <= i < |entries| && entries[i].hash == hash
  }

  /** What one cleanup pass leaves: the first `budget` stale entries are dropped. */
  ghost function Cleaned(entries: seq<Seen>, now: int, threshold: int, budget: int): seq<Seen>
    decreases |entries|
  {
    if entries == [] || budget <= 0 then entries
    else if now - entries[0].time > threshold then Cleaned(entries[1..], now, threshold, budget - 1)
    else [entries[0]] + Cleaned(entries[1..], now, threshold, budget)
  }

  class VaaSpy {
    const enableCleanup: bool
    const cleanupStarted: bool
    const seenThresholdMs: int
    const maxToRemove: int
    var seenHashes: seq<Seen>

    /** Left unset, cleanup counts as enabled, but the map and the timer are created only when
        it is explicitly asked for. */
    constructor (enableCleanup: Option<bool>, seenThresholdMs: Option<int>, maxToRemove: Option<int>)
      ensures this.seenThresholdMs == match seenThresholdMs case None => 2_000 case Some(ms) => ms
      ensures this.maxToRemove == match maxToRemove case None => 69_420 case Some(n) => n
      ensures this.enableCleanup == (enableCleanup != Some(false))
      ensures this.cleanupStarted == (enableCleanup == Some(true))
      ensures seenHashes == []
    {
      this.enableCleanup, this.cleanupStarted := enableCleanup.GetOr(true), enableCleanup.GetOr(false);
      this.seenThresholdMs, this.maxToRemove := seenThresholdMs.GetOr(2_000), maxToRemove.GetOr(69_420);
      seenHashes := [];
    }

    method HasSeen(hash: Hash) returns (found: bool)
      ensures found <==> Knows(seenHashes, hash)
    {
      for i := 0 to |seenHashes|
        invariant forall j :: 0 <= j < i ==> seenHashes[j].hash != hash
      {
        if seenHashes[i].hash == hash { return true; }
      }
      return false;
    }

    /** Delivers a message unless its hash is remembered. With cleanup disabled everything is
        delivered; enabled but never started, there is no map to look into and the call throws. */
    method ProcessUniqueVaa(hash: Hash, now: int) returns (delivered: Result<bool, string>)
      modifies this
      ensures delivered.Err? <==> enableCleanup && !cleanupStarted
      ensures delivered.Ok? ==> (delivered.value <==> !enableCleanup || !Knows(old(seenHashes), hash))
      ensures seenHashes ==
        if enableCleanup && cleanupStarted then Observed(old(seenHashes), hash, now) else old(seenHashes)
    {
      if enableCleanup {
        if !cleanupStarted { return Err("Cannot read properties of undefined"); }
        var seen := HasSeen(hash);
        if seen { return Ok(false); }
        seenHashes := seenHashes + [Seen(hash, now)];
      }
      return Ok(true);
    }

    /** The body of the timer: walks the map in insertion order, deleting as it goes. */
    method Tick(now: int)
      requires cleanupStarted
      modifies this
      ensures seenHashes == Cleaned(old(seenHashes), now, seenThresholdMs, maxToRemove)
    {
      var numRemoved := 0;
      var i := 0;
      while i < |seenHashes|
        invariant 0 <= i <= |seenHashes|
        invariant seenHashes[..i] + Cleaned(seenHashes[i..], now, seenThresholdMs, maxToRemove - numRemoved)
                  == Cleaned(old(seenHashes), now, seenThresholdMs, maxToRemove)
        decreases |seenHashes| - i
      {
        if numRemoved >= maxToRemove {
          assert seenHashes[..i] + seenHashes[i..] == seenHashes;
          break;
        }
        ghost var rest := seenHashes[i..];
        if now - seenHashes[i].time > seenThresholdMs {
          seenHashes := seenHashes[..i] + seenHashes[i + 1..];
          assert seenHashes[i..] == rest[1..];
          numRemoved := numRemoved + 1;
        } else {
          assert seenHashes[i + 1..] == rest[1..] && seenHashes[..i + 1] == seenHashes[..i] + [rest[0]];
          i := i + 1;
        }
        if i == |seenHashes| {
          assert seenHashes[i..] == [];
        }
      }
    }

    /** A whole run of a new spy with cleanup: which of its events hand a message on. */
    method Watch(events: seq<Event>) returns (delivered: seq<bool>)
      requires enableCleanup && cleanupStarted && seenHashes == []
      modifies this
      ensures |delivered| == |events|
      ensures forall i :: 0 <= i < |events| ==>
        delivered[i] == Delivers(events, i, seenThresholdMs, maxToRemove)
      ensures seenHashes == Run(events, seenThresholdMs, maxToRemove)
    {
      delivered := [];
      for n := 0 to |events|
        invariant |delivered| == n && seenHashes == Run(events[..n], seenThresholdMs, maxToRemove)
        invariant forall i :: 0 <= i < n ==> delivered[i] == Delivers(events, i, seenThresholdMs, maxToRemove)
      {
        assert events[..n + 1][..n] == events[..n];
        match events[n] {
          case Observe(hash, time) =>
            var outcome := ProcessUniqueVaa(hash, time);
            delivered := delivered + [outcome.value];
          case Tick(time) =>
            Tick(time);
            delivered := delivered + [false];
        }
      }
      assert events[..|events|] == events;
    }
  }

  ghost function Observed(entries: seq<Seen>, hash: Hash, now: int): seq<Seen> {
    if Knows(entries, hash) then entries else entries + [Seen(hash, now)]
  }

  // --------------------------------------------------------------------------- over all runs

  datatype Event = Observe(hash: Hash, time: int) | Tick(time: int)

  ghost predicate ClockRuns(events: seq<Event>) {
    forall i, j :: 0 <= i <= j < |events| ==> events[i].time <= events[j].time
  }

  ghost function Run(events: seq<Event>, threshold: int, budget: int): seq<Seen> {
    if events == [] then []
    else
      var before := Run(events[..|events| - 1], threshold, budget);
      match events[|events| - 1]
      case Observe(hash, time) => Observed(before, hash, time)
      case Tick(time) => Cleaned(before, time, threshold, budget)
  }

  /** The i-th event of a run hands its message on. */
  ghost predicate Delivers(events: seq<Event>, i: int, threshold: int, budget: int)
    requires 0 <= i < |events|
  {
    events[i].Observe? && !Knows(Run(events[..i], threshold, budget), events[i].hash)
  }

  ghost predicate TimeOrdered(entries: seq<Seen>) {
    forall i, j :: 0 <= i <= j < |entries| ==> entries[i].time <= entries[j].time
  }

  ghost predicate Stale(e: Seen, now: int, threshold: int) {
    now - e.time > threshold
  }

  /** On entries in time order a pass drops a prefix: at most `budget` entries, all stale, and
      fewer only when nothing stale is left. */
  lemma {:induction false} CleanedDropsStalePrefix(entries: seq<Seen>, now: int, threshold: int, budget: int)
    returns (removed: nat)
    requires TimeOrdered(entries)
    ensures removed <= |entries| && (removed <= budget || removed == 0)
    ensures Cleaned(entries, now, threshold, budget) == entries[removed..]
    ensures forall i :: 0 <= i < removed ==> Stale(entries[i], now, threshold)
    ensures removed < budget ==> forall e :: e in entries[removed..] ==> !Stale(e, now, threshold)
    decreases |entries|
  {
    if entries == [] || budget <= 0 {
      removed := 0;
    } else if Stale(entries[0], now, threshold) {
      removed := CleanedDropsStalePrefix(entries[1..], now, threshold, budget - 1);
      assert entries[1..][removed..] == entries[removed + 1..];
      removed := removed + 1;
    } else {
      var rest := entries[1..];
      removed := CleanedDropsStalePrefix(rest, now, threshold, budget);
      assert rest == [] || !Stale(rest[0], now, threshold);
      assert removed == 0 && entries == [entries[0]] + entries[1..];
    }
  }

  /** Insertion order is time order, after every run of a clock that never goes back. */
  lemma {:induction false} RunIsTimeOrdered(events: seq<Event>, threshold: int, budget: int)
    requires ClockRuns(events)
    ensures TimeOrdered(Run(events, threshold, budget))
    ensures forall e :: e in Run(events, threshold, budget) ==> e.time <= events[|events| - 1].time
  {
    if events != [] {
      var init, last := events[..|events| - 1], events[|events| - 1];
      RunIsTimeOrdered(init, threshold, budget);
      if last.Tick? {
        var removed := CleanedDropsStalePrefix(Run(init, threshold, budget), last.time, threshold, budget);
      }
    }
  }

  ghost predicate Distinct(entries: seq<Seen>) {
    forall i, j :: 0 <= i < j < |entries| ==> entries[i].hash != entries[j].hash
  }

  lemma {:induction false} CleanedAddsNothing(entries: seq<Seen>, now: int, threshold: int, budget: int, e: Seen)
    requires e in Cleaned(entries, now, threshold, budget)
    ensures e in entries
    decreases |entries|
  {
    if entries != [] && 0 < budget && e != entries[0] {
      CleanedAddsNothing(
        entries[1..], now, threshold, if now - entries[0].time > threshold then budget - 1 else budget, e);
    }
  }

  lemma {:induction false} CleanedIsDistinct(entries: seq<Seen>, now: int, threshold: int, budget: int)
    requires Distinct(entries)
    ensures Distinct(Cleaned(entries, now, threshold, budget))
    decreases |entries|
  {
    if entries != [] && 0 < budget {
      var first, rest := entries[0], entries[1..];
      if Stale(first, now, threshold) {
        CleanedIsDistinct(rest, now, threshold, budget - 1);
      } else {
        CleanedIsDistinct(rest, now, threshold, budget);
        var left := Cleaned(rest, now, threshold, budget);
        forall e | e in left ensures e.hash != first.hash {
          CleanedAddsNothing(rest, now, threshold, budget, e);
        }
        assert Cleaned(entries, now, threshold, budget) == [first] + left;
      }
    }
  }

  /** Like the keys of a map, no hash is remembered twice, whatever the clock does. */
  lemma {:induction false} RunIsDistinct(events: seq<Event>, threshold: int, budget: int)
    ensures Distinct(Run(events, threshold, budget))
  {
    hide Cleaned;
    if events != [] {
      var init, last := events[..|events| - 1], events[|events| - 1];
      RunIsDistinct(init, threshold, budget);
      if last.Tick? {
        CleanedIsDistinct(Run(init, threshold, budget), last.time, threshold, budget);
      }
    }
  }

  /** A delivered hash is remembered until more than the threshold has passed. */
  lemma {:induction false} RememberedUntilStale(events: seq<Event>, i: nat, threshold: int, budget: int)
    requires ClockRuns(events) && i < |events| && Delivers(events, i, threshold, budget)
    ensures || Seen(events[i].hash, events[i].time) in Run(events, threshold, budget)
            || events[|events| - 1].time - events[i].time > threshold
  {
    var init, last := events[..|events| - 1], events[|events| - 1];
    if i < |init| {
      assert init[..i] == events[..i];
      RememberedUntilStale(init, i, threshold, budget);
      RunIsTimeOrdered(init, threshold, budget);
      if last.Tick? {
        var before := Run(init, threshold, budget);
        var removed := CleanedDropsStalePrefix(before, last.time, threshold, budget);
        assert before == before[..removed] + before[removed..];
      }
    }
  }

  /** Two deliveries of one hash are strictly more than the threshold apart, over every
      interleaving of observations and ticks. */
  lemma DeliveriesAreFarApart(events: seq<Event>, i: nat, j: nat, threshold: int, budget: int)
    requires ClockRuns(events) && i < j < |events|
    requires Delivers(events, i, threshold, budget) && Delivers(events, j, threshold, budget)
    requires events[i].hash == events[j].hash
    ensures events[j].time - events[i].time > threshold
  {
    var before := events[..j];
    var seen, entries := Seen(events[i].hash, events[i].time), Run(before, threshold, budget);
    assert before[..i] == events[..i];
    RememberedUntilStale(before, i, threshold, budget);
    assert seen in entries ==> Knows(entries, seen.hash);
  }

  /** What is remembered was delivered when it was first seen. */
  lemma {:induction false} RememberedWasDelivered(events: seq<Event>, e: Seen, threshold: int, budget: int)
    returns (i: nat)
    requires e in Run(events, threshold, budget)
    ensures i < |events| && Delivers(events, i, threshold, budget) && e == Seen(events[i].hash, events[i].time)
  {
    hide Cleaned, Knows;
    var init, last := events[..|events| - 1], events[|events| - 1];
    var before := Run(init, threshold, budget);
    if last.Tick? {
      CleanedAddsNothing(before, last.time, threshold, budget, e);
    }
    if e in before {
      i := RememberedWasDelivered(init, e, threshold, budget);
      assert init[..i] == events[..i];
    } else {
      i := |init|;
    }
  }

  /** Nothing is lost: an observation is held back only after the same hash was delivered. */
  lemma HeldBackOnlyAfterDelivery(events: seq<Event>, j: nat, threshold: int, budget: int) returns (i: nat)
    requires j < |events| && events[j].Observe? && !Delivers(events, j, threshold, budget)
    ensures i < j && Delivers(events, i, threshold, budget) && events[i].hash == events[j].hash
  {
    var before := events[..j];
    var entries := Run(before, threshold, budget);
    var k :| 0 <= k < |entries| && entries[k].hash == events[j].hash;
    i := RememberedWasDelivered(before, entries[k], threshold, budget);
    assert before[..i] == events[..i];
  }
}
