/** The solver's calendar of auctions to execute: a list of slots, the auctions listed under
    each slot and the details of each auction, kept in step by three operations. */
module SlotOrderedAuctions {
  import opened DecimalOrder
  import opened Wrappers

  type PublicKey = nat

  datatype AuctionDetails = AuctionDetails(slot: nat, fastVaa: PublicKey, execute: bool)

  datatype Calendar = Calendar(
    slots: seq<nat>,
    auctionsPerSlot: map<nat, seq<PublicKey>>,
    auctions: map<PublicKey, AuctionDetails>)

  // ---------------------------------------------------------- what the operations do, purely

  ghost function Added(c: Calendar, endSlot: nat, auction: PublicKey, fastVaa: PublicKey, execute: bool): Calendar {
    var slot := endSlot + 1;
    var listed := if slot in c.auctionsPerSlot then c.auctionsPerSlot[slot] else [];
    Calendar(
      if slot in c.slots then c.slots else Sort(c.slots + [slot]),
      c.auctionsPerSlot[slot := listed + [auction]],
      c.auctions[auction := AuctionDetails(slot, fastVaa, execute)])
  }

  ghost function Updated(c: Calendar, auction: PublicKey, execute: bool): Calendar {
    if auction in c.auctions
    then c.(auctions := c.auctions[auction := c.auctions[auction].(execute := execute)])
    else c
  }

  /** What walking a slot's list returns: an auction that has no details any more, because it
      was listed twice or is already gone, yields nothing. */
  ghost function Taken(listed: seq<PublicKey>, auctions: map<PublicKey, AuctionDetails>)
    : seq<(PublicKey, AuctionDetails)>
  {
    if listed == [] then []
    else
      var last := listed[|listed| - 1];
      var before := listed[..|listed| - 1];
      Taken(before, auctions)
      + (if last in auctions && last !in before && auctions[last].execute then [(last, auctions[last])] else [])
  }

  ghost function KeySet(listed: seq<PublicKey>): set<PublicKey> {
    set k | k in listed
  }

  ghost function Dequeued(c: Calendar): (Calendar, seq<(PublicKey, AuctionDetails)>)
    requires c.slots != [] && c.slots[0] in c.auctionsPerSlot
  {
    var listed := c.auctionsPerSlot[c.slots[0]];
    (Calendar(c.slots[1..], c.auctionsPerSlot - {c.slots[0]}, c.auctions - KeySet(listed)),
     Taken(listed, c.auctions))
  }

  /** The containers agree: the slot list is sorted without repetition and holds just the
      keys of the per-slot lists, and every auction is listed under the slot in its details. */
  ghost predicate Consistent(c: Calendar) {
    && Sorted(c.slots)
    && (forall i, j :: 0 <= i < j < |c.slots| ==> c.slots[i] != c.slots[j])
    && (forall s :: s in c.slots <==> s in c.auctionsPerSlot)
    && (forall k :: k in c.auctions ==>
          c.auctions[k].slot in c.auctionsPerSlot && k in c.auctionsPerSlot[c.auctions[k].slot])
  }

  // --------------------------------------------------------------------------- the container

  class SlotOrderedAuctions {
    var slots: seq<nat>
    var auctionsPerSlot: map<nat, seq<PublicKey>>
    var auctions: map<PublicKey, AuctionDetails>

    ghost function View(): Calendar
      reads this
    {
      Calendar(slots, auctionsPerSlot, auctions)
    }

    constructor ()
      ensures View() == Calendar([], map[], map[]) && Consistent(View())
    {
      slots, auctionsPerSlot, auctions := [], map[], map[];
    }

    method AddAuction(endSlot: nat, auction: PublicKey, fastVaa: PublicKey, execute: bool)
      requires Consistent(View())
      modifies this
      ensures View() == old(Added(View(), endSlot, auction, fastVaa, execute)) && Consistent(View())
    {
      hide Sort, AtMost;
      // Make sure not to execute at the end slot itself.
      var slot := endSlot + 1;
      if slot !in slots {
        slots := slots + [slot];
        slots := Sort(slots);
        auctionsPerSlot := auctionsPerSlot[slot := []];
      }
      auctionsPerSlot := auctionsPerSlot[slot := auctionsPerSlot[slot] + [auction]];
      auctions := auctions[auction := AuctionDetails(slot, fastVaa, execute)];
      assert View() == old(Added(View(), endSlot, auction, fastVaa, execute));
      AddedIsConsistent(old(View()), endSlot, auction, fastVaa, execute);
    }

    method UpdateAuction(auction: PublicKey, execute: bool) returns (found: bool)
      requires Consistent(View())
      modifies this
      ensures found == (auction in old(auctions))
      ensures View() == old(Updated(View(), auction, execute)) && Consistent(View())
    {
      found := auction in auctions;
      if found {
        auctions := auctions[auction := auctions[auction].(execute := execute)];
      }
    }

    /** The slot that comes first in the order of decimal strings; the next one to be dequeued. */
    function HeadSlot(): (head: Option<nat>)
      reads this
      ensures head.None? <==> slots == []
      ensures head.Some? ==> head.value in slots
      ensures Consistent(View()) && head.Some? ==> forall s :: s in slots ==> AtMost(head.value, s)
    {
      if slots == [] then None else Some(slots[0])
    }

    /** Throws on an empty calendar. */
    method Dequeue() returns (r: Result<seq<(PublicKey, AuctionDetails)>, string>)
      requires Consistent(View())
      modifies this
      ensures Consistent(View())
      ensures old(slots) == [] ==> r.Err? && View() == old(View())
      ensures old(slots) != [] ==> r.Ok? && (View(), r.value) == old(Dequeued(View()))
      ensures old(HeadSlot()).Some? ==>
        forall s :: s in slots <==> s in old(slots) && s != old(HeadSlot()).value
    {
      if HeadSlot() == None { return Err("No auctions to dequeue"); }
      var slot := slots[0];
      slots := slots[1..];
      var details, left := TakeDetails(auctionsPerSlot[slot], auctions);
      auctions := left;
      auctionsPerSlot := auctionsPerSlot - {slot};
      DequeuedIsConsistent(old(View()));
      return Ok(ToExecute(details));
    }

    /** Looks up each listed auction and deletes its details as it goes. */
    static method TakeDetails(listed: seq<PublicKey>, auctions: map<PublicKey, AuctionDetails>)
      returns (details: seq<(PublicKey, Option<AuctionDetails>)>, left: map<PublicKey, AuctionDetails>)
      ensures left == auctions - KeySet(listed)
      ensures ToExecute(details) == Taken(listed, auctions)
    {
      left, details := auctions, [];
      for i := 0 to |listed|
        invariant left == auctions - KeySet(listed[..i])
        invariant ToExecute(details) == Taken(listed[..i], auctions)
      {
        var auction := listed[i];
        var deets := if auction in left then Some(left[auction]) else None;
        TakenStep(listed, i, auctions);
        ToExecuteAppend(details, auction, deets);
        left := left - {auction};
        details := details + [(auction, deets)];
      }
      assert listed[..|listed|] == listed;
    }
  }

  /** The final filter: entries without details count as not to be executed. */
  function ToExecute(details: seq<(PublicKey, Option<AuctionDetails>)>): seq<(PublicKey, AuctionDetails)> {
    if details == [] then []
    else
      var (auction, deets) := details[|details| - 1];
      ToExecute(details[..|details| - 1])
      + (if deets.Some? && deets.value.execute then [(auction, deets.value)] else [])
  }

  lemma ToExecuteAppend(
    details: seq<(PublicKey, Option<AuctionDetails>)>, auction: PublicKey, deets: Option<AuctionDetails>)
    ensures ToExecute(details + [(auction, deets)])
      == ToExecute(details) + (if deets.Some? && deets.value.execute then [(auction, deets.value)] else [])
  {
    assert (details + [(auction, deets)])[..|details|] == details;
  }

  lemma TakenStep(listed: seq<PublicKey>, i: nat, auctions: map<PublicKey, AuctionDetails>)
    requires i < |listed|
    ensures var k := listed[i];
      && KeySet(listed[..i + 1]) == KeySet(listed[..i]) + {k}
      && Taken(listed[..i + 1], auctions) == Taken(listed[..i], auctions)
         + (if k in auctions && k !in KeySet(listed[..i]) && auctions[k].execute then [(k, auctions[k])] else [])
  {
    assert listed[..i + 1][..i] == listed[..i];
  }

  // ---------------------------------------------------------------------- consistency is kept

  lemma AddedIsConsistent(c: Calendar, endSlot: nat, auction: PublicKey, fastVaa: PublicKey, execute: bool)
    requires Consistent(c)
    ensures Consistent(Added(c, endSlot, auction, fastVaa, execute))
  {
    hide Sort, AtMost;
    var slot := endSlot + 1;
    if slot !in c.slots {
      SortIsSorted(c.slots + [slot]);
      SameElementsOnce(c.slots + [slot], Sort(c.slots + [slot]));
    }
  }

  /** A rearrangement of distinct elements has the same elements, still distinct. */
  lemma SameElementsOnce(s: seq<nat>, t: seq<nat>)
    requires multiset(s) == multiset(t)
    requires forall i, j :: 0 <= i < j < |s| ==> s[i] != s[j]
    ensures forall x :: x in s <==> x in t
    ensures forall i, j :: 0 <= i < j < |t| ==> t[i] != t[j]
  {
    forall x ensures x in s <==> x in t {
      assert x in s <==> multiset(s)[x] > 0;
      assert x in t <==> multiset(t)[x] > 0;
    }
    forall i, j | 0 <= i < j < |t| ensures t[i] != t[j] {
      if t[i] == t[j] {
        assert t == t[..i] + [t[i]] + t[i + 1..j] + [t[j]] + t[j + 1..];
        assert multiset(t)[t[i]] >= 2;
        DistinctOnce(s, t[i]);
      }
    }
  }

  lemma {:induction false} DistinctOnce(s: seq<nat>, x: nat)
    requires forall i, j :: 0 <= i < j < |s| ==> s[i] != s[j]
    ensures multiset(s)[x] <= 1
  {
    if s != [] {
      var init := s[..|s| - 1];
      assert s == init + [s[|s| - 1]];
      DistinctOnce(init, x);
      if x == s[|s| - 1] {
        assert x !in init;
      }
    }
  }

  lemma DequeuedIsConsistent(c: Calendar)
    requires Consistent(c) && c.slots != []
    ensures Consistent(Dequeued(c).0)
  {
    var head := c.slots[0];
    var after := Dequeued(c).0;
    assert forall s :: s in after.slots <==> s in c.slots && s != head;
    forall k | k in after.auctions ensures k in after.auctionsPerSlot[c.auctions[k].slot] {
      assert k !in c.auctionsPerSlot[head];
    }
  }

  // --------------------------------------------------------------------------- over all runs

  datatype Event =
    | Add(endSlot: nat, auction: PublicKey, fastVaa: PublicKey, execute: bool)
    | Update(auction: PublicKey, execute: bool)
    | Dequeue

  ghost function After(c: Calendar, e: Event): Calendar
    requires Consistent(c)
  {
    match e
    case Add(endSlot, auction, fastVaa, execute) => Added(c, endSlot, auction, fastVaa, execute)
    case Update(auction, execute) => Updated(c, auction, execute)
    case Dequeue => if c.slots == [] then c else Dequeued(c).0
  }

  ghost function Returned(c: Calendar, e: Event): seq<(PublicKey, AuctionDetails)>
    requires Consistent(c)
  {
    if e.Dequeue? && c.slots != [] then Dequeued(c).1 else []
  }

  lemma AfterIsConsistent(c: Calendar, e: Event)
    requires Consistent(c)
    ensures Consistent(After(c, e))
  {
    match e
    case Add(endSlot, auction, fastVaa, execute) => AddedIsConsistent(c, endSlot, auction, fastVaa, execute);
    case Update(_, _) =>
    case Dequeue => if c.slots != [] { DequeuedIsConsistent(c); }
  }

  /** The calendar after a run; the containers agree after every one. */
  ghost function Run(events: seq<Event>): (c: Calendar)
    ensures Consistent(c)
  {
    if events == [] then Calendar([], map[], map[])
    else
      var before, e := Run(events[..|events| - 1]), events[|events| - 1];
      AfterIsConsistent(before, e);
      After(before, e)
  }

  ghost function Occurrences(k: PublicKey, out: seq<(PublicKey, AuctionDetails)>): nat {
    if out == [] then 0
    else Occurrences(k, out[..|out| - 1]) + (if out[|out| - 1].0 == k then 1 else 0)
  }

  ghost function TimesAdded(k: PublicKey, events: seq<Event>): nat {
    if events == [] then 0
    else
      var e := events[|events| - 1];
      TimesAdded(k, events[..|events| - 1]) + (if e.Add? && e.auction == k then 1 else 0)
  }

  ghost function TimesReturned(k: PublicKey, events: seq<Event>): nat {
    if events == [] then 0
    else
      var init := events[..|events| - 1];
      TimesReturned(k, init) + Occurrences(k, Returned(Run(init), events[|events| - 1]))
  }

  lemma {:induction false} OccurrencesAppend(
    k: PublicKey, a: seq<(PublicKey, AuctionDetails)>, x: (PublicKey, AuctionDetails))
    ensures Occurrences(k, a + [x]) == Occurrences(k, a) + (if x.0 == k then 1 else 0)
  {
    assert (a + [x])[..|a|] == a;
  }

  lemma {:induction false} OccursIff(k: PublicKey, out: seq<(PublicKey, AuctionDetails)>)
    ensures 0 < Occurrences(k, out) <==> exists d :: (k, d) in out
  {
    if out != [] {
      var init, last := out[..|out| - 1], out[|out| - 1];
      assert out == init + [last];
      OccursIff(k, init);
    }
  }

  /** The i-th event of a run returns the auction. */
  ghost predicate ReturnedAt(k: PublicKey, events: seq<Event>, i: nat)
    requires i < |events|
  {
    exists d :: (k, d) in Returned(Run(events[..i]), events[i])
  }

  /** An auction counts as returned exactly when some dequeue of the run returned it. */
  lemma {:induction false} ReturnedIff(k: PublicKey, events: seq<Event>)
    ensures 0 < TimesReturned(k, events) <==> exists i :: 0 <= i < |events| && ReturnedAt(k, events, i)
  {
    hide Run, Returned, Occurrences;
    if events != [] {
      var n := |events| - 1;
      var init := events[..n];
      ReturnedIff(k, init);
      OccursIff(k, Returned(Run(init), events[n]));
      assert ReturnedAt(k, events, n) <==> 0 < Occurrences(k, Returned(Run(init), events[n]));
      forall i | 0 <= i < n ensures ReturnedAt(k, init, i) <==> ReturnedAt(k, events, i) {
        assert init[..i] == events[..i];
      }
    }
  }

  /** One dequeue returns an auction at most once, and then its details were there. */
  lemma {:induction false} TakenOnce(k: PublicKey, listed: seq<PublicKey>, auctions: map<PublicKey, AuctionDetails>)
    ensures Occurrences(k, Taken(listed, auctions)) <= (if k in auctions && k in listed then 1 else 0)
  {
    if listed != [] {
      var last, before := listed[|listed| - 1], listed[..|listed| - 1];
      assert listed == before + [last];
      TakenOnce(k, before, auctions);
      if last in auctions && last !in before && auctions[last].execute {
        OccurrencesAppend(k, Taken(before, auctions), (last, auctions[last]));
      } else {
        assert Taken(listed, auctions) == Taken(before, auctions);
      }
    }
  }

  lemma {:induction false} TakenMembers(
    listed: seq<PublicKey>, auctions: map<PublicKey, AuctionDetails>, k: PublicKey, d: AuctionDetails)
    ensures (k, d) in Taken(listed, auctions) <==> k in listed && k in auctions && auctions[k] == d && d.execute
  {
    if listed != [] {
      var last, before := listed[|listed| - 1], listed[..|listed| - 1];
      assert listed == before + [last];
      TakenMembers(before, auctions, k, d);
    }
  }

  /** Exactly what a dequeue returns: the auctions listed under the head slot that are still
      pending and to be executed, with their current details. One that was added again under a
      later slot is listed under both, so it leaves with the earlier slot and the later details. */
  lemma DequeuedMembers(c: Calendar, k: PublicKey, d: AuctionDetails)
    requires Consistent(c) && c.slots != []
    ensures (k, d) in Dequeued(c).1
            <==> k in c.auctionsPerSlot[c.slots[0]] && k in c.auctions && c.auctions[k] == d && d.execute
    ensures (k, d) in Dequeued(c).1 ==> k !in Dequeued(c).0.auctions
  {
    TakenMembers(c.auctionsPerSlot[c.slots[0]], c.auctions, k, d);
  }

  /** Over every run an auction is returned no more often than it was added, re-additions
      under other slots included. */
  lemma {:induction false} ReturnedAtMostOncePerAdd(k: PublicKey, events: seq<Event>)
    ensures TimesReturned(k, events) + (if k in Run(events).auctions then 1 else 0) <= TimesAdded(k, events)
  {
    if events != [] {
      var init, e := events[..|events| - 1], events[|events| - 1];
      var before := Run(init);
      ReturnedAtMostOncePerAdd(k, init);
      if e.Dequeue? && before.slots != [] {
        TakenOnce(k, before.auctionsPerSlot[before.slots[0]], before.auctions);
      }
    }
  }

  // -------------------------------------------------- order and details, re-additions included

  ghost function Head(c: Calendar): Option<nat> {
    if c.slots == [] then None else Some(c.slots[0])
  }

  /** The auctions added under a slot since it was last dequeued, in order. */
  ghost function Listed(events: seq<Event>, slot: nat): seq<PublicKey> {
    if events == [] then []
    else
      var init := events[..|events| - 1];
      match events[|events| - 1]
      case Add(endSlot, auction, _, _) => Listed(init, slot) + (if endSlot + 1 == slot then [auction] else [])
      case Update(_, _) => Listed(init, slot)
      case Dequeue => if Head(Run(init)) == Some(slot) then [] else Listed(init, slot)
  }

  lemma {:induction false} ListsAreAdditions(events: seq<Event>, slot: nat)
    ensures var lists := Run(events).auctionsPerSlot;
      Listed(events, slot) == if slot in lists then lists[slot] else []
  {
    hide Sort, Sorted;
    if events != [] {
      ListsAreAdditions(events[..|events| - 1], slot);
    }
  }

  /** What the last additions and updates say about an auction, until a slot that lists it is
      dequeued. */
  ghost function LastWritten(events: seq<Event>, k: PublicKey): Option<AuctionDetails> {
    if events == [] then None
    else
      var init := events[..|events| - 1];
      var before := LastWritten(init, k);
      match events[|events| - 1]
      case Add(endSlot, auction, fastVaa, execute) =>
        if auction == k then Some(AuctionDetails(endSlot + 1, fastVaa, execute)) else before
      case Update(auction, execute) =>
        if auction == k && before.Some? then Some(before.value.(execute := execute)) else before
      case Dequeue =>
        var head := Head(Run(init));
        if head.Some? && k in Listed(init, head.value) then None else before
  }

  lemma {:induction false} DetailsAreLastWritten(events: seq<Event>, k: PublicKey)
    ensures var auctions := Run(events).auctions;
      LastWritten(events, k) == if k in auctions then Some(auctions[k]) else None
  {
    hide Sort, Sorted, Listed;
    if events != [] {
      var init := events[..|events| - 1];
      DetailsAreLastWritten(init, k);
      if Head(Run(init)).Some? {
        ListsAreAdditions(init, Head(Run(init)).value);
      }
    }
  }

  /** The position of the first occurrence, or the length when there is none. */
  ghost function FirstIndex(listed: seq<PublicKey>, k: PublicKey): (i: nat)
    ensures i <= |listed| && (k in listed ==> i < |listed| && listed[i] == k)
    ensures forall j :: 0 <= j < i ==> listed[j] != k
  {
    if listed == [] || listed[0] == k then 0 else 1 + FirstIndex(listed[1..], k)
  }

  lemma FirstIndexAppend(listed: seq<PublicKey>, last: PublicKey, k: PublicKey)
    ensures k in listed ==> FirstIndex(listed + [last], k) == FirstIndex(listed, k) < |listed|
    ensures k !in listed && k == last ==> FirstIndex(listed + [last], k) == |listed|
  {
    hide FirstIndex;
    var i := FirstIndex(listed + [last], k);
    if k in listed {
      assert (listed + [last])[FirstIndex(listed, k)] == k;
      assert i < |listed| ==> listed[i] == k;
    } else if k == last {
      assert (listed + [last])[|listed|] == k == (listed + [last])[i];
    }
  }

  /** Each is listed, and first listed after those before it. */
  ghost predicate InOrder(listed: seq<PublicKey>, out: seq<(PublicKey, AuctionDetails)>) {
    && (forall i :: 0 <= i < |out| ==> out[i].0 in listed)
    && forall i, j :: 0 <= i < j < |out| ==> FirstIndex(listed, out[i].0) < FirstIndex(listed, out[j].0)
  }

  lemma {:induction false} TakenInOrder(listed: seq<PublicKey>, auctions: map<PublicKey, AuctionDetails>)
    ensures InOrder(listed, Taken(listed, auctions))
  {
    hide FirstIndex;
    if listed != [] {
      var before, last := listed[..|listed| - 1], listed[|listed| - 1];
      assert listed == before + [last];
      TakenInOrder(before, auctions);
      forall k | k in listed
        ensures k in before ==> FirstIndex(listed, k) == FirstIndex(before, k) < |before|
        ensures k !in before ==> FirstIndex(listed, k) == |before|
      {
        FirstIndexAppend(before, last, k);
      }
    }
  }

  /** Every dequeue of every run, auctions added again included: it returns the auctions that
      were added under the head slot since that slot was last dequeued, whose last-written
      details say so, with those details, in the order of their first listing there. */
  lemma DequeueReturns(events: seq<Event>)
    requires Run(events).slots != []
    ensures
      var listed, out := Listed(events, Run(events).slots[0]), Returned(Run(events), Dequeue);
      && (forall k, d :: (k, d) in out <==> k in listed && LastWritten(events, k) == Some(d) && d.execute)
      && InOrder(listed, out)
  {
    hide Listed, LastWritten, Taken, InOrder, Sorted, Run;
    var c := Run(events);
    ListsAreAdditions(events, c.slots[0]);
    forall k, d
      ensures (k, d) in Returned(c, Dequeue)
        <==> k in Listed(events, c.slots[0]) && LastWritten(events, k) == Some(d) && d.execute
    {
      DetailsAreLastWritten(events, k);
      DequeuedMembers(c, k, d);
    }
    TakenInOrder(c.auctionsPerSlot[c.slots[0]], c.auctions);
  }

  // ----------------------------------------------------------------------- the head slot

  /** `a` does not exceed the leading digits of `b`, cut to the length of `a`. */
  ghost predicate AtMostLeading(a: nat, b: nat) {
    Digits(a) <= Digits(b) && a <= Leading(b, Digits(b) - Digits(a))
  }

  /** The head is the smallest pending slot exactly when the smallest one does not exceed the
      leading digits, cut to its own length, of any other. */
  lemma HeadIsSmallestIff(c: Calendar, smallest: nat)
    requires Consistent(c) && smallest in c.slots
    requires forall s :: s in c.slots ==> smallest <= s
    ensures c.slots[0] == smallest <==> forall s :: s in c.slots ==> AtMostLeading(smallest, s)
  {
    var head := c.slots[0];
    assert head in c.slots;
    if head == smallest {
      forall s | s in c.slots ensures AtMostLeading(smallest, s) {
        if s == smallest {
          assert Leading(s, 0) == s;
        } else {
          BeforeIff(smallest, s);
        }
      }
    } else {
      BeforeIff(smallest, head);
      BeforeIsTotal(smallest, head);
    }
  }

  /** So it is while all pending slots have equally many digits. */
  lemma HeadIsSmallest(c: Calendar)
    requires Consistent(c) && c.slots != []
    requires forall s :: s in c.slots ==> Digits(s) == Digits(c.slots[0])
    ensures forall s :: s in c.slots ==> c.slots[0] <= s
  {
    forall s | s in c.slots ensures c.slots[0] <= s {
      SameDigitsNumeric(c.slots[0], s);
    }
  }

  /** What the solver compares the current slot with is the smallest pending slot exactly under
      that condition. */
  lemma HeadSlotIsSmallestIff(q: SlotOrderedAuctions, smallest: nat)
    requires Consistent(q.View()) && smallest in q.slots
    requires forall s :: s in q.slots ==> smallest <= s
    ensures q.HeadSlot() == Some(smallest) <==> forall s :: s in q.slots ==> AtMostLeading(smallest, s)
  {
    HeadIsSmallestIff(q.View(), smallest);
  }

  lemma HeadSlotIsSmallest(q: SlotOrderedAuctions)
    requires Consistent(q.View()) && q.slots != []
    requires forall s, t :: s in q.slots && t in q.slots ==> Digits(s) == Digits(t)
    ensures q.HeadSlot().Some? && forall s :: s in q.slots ==> q.HeadSlot().value <= s
  {
    assert q.slots[0] in q.slots;
    HeadIsSmallest(q.View());
  }

  /** And not in general: adding auctions that end at slots 8 and 9 makes 10 the head. */
  lemma HeadNotSmallestAcrossDigits(a: PublicKey, b: PublicKey, vaa: PublicKey)
    ensures Run([Add(8, a, vaa, true), Add(9, b, vaa, true)]).slots == [10, 9]
  {
    var events := [Add(8, a, vaa, true), Add(9, b, vaa, true)];
    assert events[..1][..0] == [] && Run(events[..1]) == After(Run([]), events[0]);
    SortPutsTenFirst();
    hide Sort;
    assert [] + [9] == [9] && [9] + [10] == [9, 10];
    assert Run(events[..1]).slots == [9];
  }

  lemma SortPutsTenFirst()
    ensures Sort([9]) == [9] && Sort([9, 10]) == [10, 9]
  {
    assert Decimal(10) == ['1', '0'] && Decimal(9) == ['9'];
    assert [9][..0] == [] && Sort([9]) == Insert([], 9);
    assert [9, 10][..1] == [9] && Sort([9, 10]) == Insert([9], 10);
  }

  // --------------------------------------------- the calendar as a journal of pending auctions

  datatype Entry = Entry(auction: PublicKey, details: AuctionDetails)

  ghost function KeysAt(q: seq<Entry>, slot: nat): seq<PublicKey> {
    if q == [] then []
    else
      var last := q[|q| - 1];
      KeysAt(q[..|q| - 1], slot) + (if last.details.slot == slot then [last.auction] else [])
  }

  /** The auctions of a slot that are to be executed, in insertion order. */
  ghost function DueAt(q: seq<Entry>, slot: nat): seq<(PublicKey, AuctionDetails)> {
    if q == [] then []
    else
      var Entry(auction, details) := q[|q| - 1];
      DueAt(q[..|q| - 1], slot) + (if details.slot == slot && details.execute then [(auction, details)] else [])
  }

  ghost function Without(q: seq<Entry>, slot: nat): seq<Entry> {
    if q == [] then []
    else Without(q[..|q| - 1], slot) + (if q[|q| - 1].details.slot == slot then [] else [q[|q| - 1]])
  }

  ghost function Rewritten(q: seq<Entry>, auction: PublicKey, execute: bool): seq<Entry> {
    seq(|q|, i requires 0 <= i < |q| =>
      if q[i].auction == auction then Entry(auction, q[i].details.(execute := execute)) else q[i])
  }

  ghost function JournalAfter(q: seq<Entry>, e: Event, head: Option<nat>): seq<Entry> {
    match e
    case Add(endSlot, auction, fastVaa, execute) => q + [Entry(auction, AuctionDetails(endSlot + 1, fastVaa, execute))]
    case Update(auction, execute) => Rewritten(q, auction, execute)
    case Dequeue => if head.Some? then Without(q, head.value) else q
  }

  ghost function Journal(events: seq<Event>): seq<Entry> {
    if events == [] then []
    else
      var init := events[..|events| - 1];
      JournalAfter(Journal(init), events[|events| - 1], Head(Run(init)))
  }

  /** No auction is added while it is still pending. */
  ghost predicate AddsAreFresh(events: seq<Event>) {
    forall i :: 0 <= i < |events| && events[i].Add? ==> events[i].auction !in Run(events[..i]).auctions
  }

  /** Each pending auction has one entry, with its details. */
  ghost predicate Indexes(auctions: map<PublicKey, AuctionDetails>, q: seq<Entry>) {
    && (forall i, j :: 0 <= i < j < |q| ==> q[i].auction != q[j].auction)
    && (forall e :: e in q ==> e.auction in auctions && auctions[e.auction] == e.details)
    && (forall k :: k in auctions ==> Entry(k, auctions[k]) in q)
  }

  /** Each list holds the auctions of its slot in journal order; no list is empty. */
  ghost predicate Lists(perSlot: map<nat, seq<PublicKey>>, q: seq<Entry>) {
    && (forall s :: s in perSlot ==> perSlot[s] == KeysAt(q, s) != [])
    && (forall s :: s !in perSlot ==> KeysAt(q, s) == [])
  }

  ghost predicate Represents(
    perSlot: map<nat, seq<PublicKey>>, auctions: map<PublicKey, AuctionDetails>, q: seq<Entry>)
  {
    Indexes(auctions, q) && Lists(perSlot, q)
  }

  lemma {:induction false} KeysAtMembers(q: seq<Entry>, slot: nat, k: PublicKey)
    ensures k in KeysAt(q, slot) <==> exists e :: e in q && e.auction == k && e.details.slot == slot
  {
    if q != [] {
      var init, last := q[..|q| - 1], q[|q| - 1];
      assert q == init + [last];
      KeysAtMembers(init, slot, k);
    }
  }

  lemma {:induction false} WithoutMembers(q: seq<Entry>, slot: nat)
    requires forall i, j :: 0 <= i < j < |q| ==> q[i].auction != q[j].auction
    ensures forall e :: e in Without(q, slot) <==> e in q && e.details.slot != slot
    ensures forall i, j :: 0 <= i < j < |Without(q, slot)| ==>
      Without(q, slot)[i].auction != Without(q, slot)[j].auction
  {
    if q != [] {
      var init, last := q[..|q| - 1], q[|q| - 1];
      assert q == init + [last];
      WithoutMembers(init, slot);
      var rest := Without(init, slot);
      assert forall i :: 0 <= i < |rest| ==> rest[i] in init && rest[i].auction != last.auction;
    }
  }

  lemma {:induction false} WithoutKeys(q: seq<Entry>, slot: nat, s: nat)
    ensures KeysAt(Without(q, slot), s) == if s == slot then [] else KeysAt(q, s)
  {
    if q != [] {
      var init, last := q[..|q| - 1], q[|q| - 1];
      WithoutKeys(init, slot, s);
      var rest := Without(init, slot);
      if last.details.slot != slot {
        assert (rest + [last])[..|rest|] == rest;
      } else {
        assert Without(q, slot) == rest;
      }
    }
  }

  lemma {:induction false} RewrittenKeepsKeys(q: seq<Entry>, auction: PublicKey, execute: bool, slot: nat)
    ensures KeysAt(Rewritten(q, auction, execute), slot) == KeysAt(q, slot)
  {
    if q != [] {
      RewrittenKeepsKeys(q[..|q| - 1], auction, execute, slot);
      assert Rewritten(q, auction, execute)[..|q| - 1] == Rewritten(q[..|q| - 1], auction, execute);
    }
  }

  lemma {:induction false} TakenIsDue(q: seq<Entry>, slot: nat, auctions: map<PublicKey, AuctionDetails>)
    requires forall i, j :: 0 <= i < j < |q| ==> q[i].auction != q[j].auction
    requires forall e :: e in q ==> e.auction in auctions && auctions[e.auction] == e.details
    ensures Taken(KeysAt(q, slot), auctions) == DueAt(q, slot)
  {
    if q != [] {
      var init, last := q[..|q| - 1], q[|q| - 1];
      assert q == init + [last];
      TakenIsDue(init, slot, auctions);
      KeysAtMembers(init, slot, last.auction);
      if last.details.slot == slot {
        assert KeysAt(q, slot)[..|KeysAt(init, slot)|] == KeysAt(init, slot);
      } else {
        assert KeysAt(q, slot) == KeysAt(init, slot) && DueAt(q, slot) == DueAt(init, slot);
      }
    }
  }

  lemma AddLists(perSlot: map<nat, seq<PublicKey>>, q: seq<Entry>, e: Entry)
    requires Lists(perSlot, q)
    ensures var slot := e.details.slot;
      Lists(perSlot[slot := (if slot in perSlot then perSlot[slot] else []) + [e.auction]], q + [e])
  {
    assert (q + [e])[..|q|] == q;
    forall s ensures KeysAt(q + [e], s) == KeysAt(q, s) + (if s == e.details.slot then [e.auction] else []) {
    }
  }

  lemma AddIndexes(auctions: map<PublicKey, AuctionDetails>, q: seq<Entry>, e: Entry)
    requires Indexes(auctions, q) && e.auction !in auctions
    ensures Indexes(auctions[e.auction := e.details], q + [e])
  {
    assert forall i :: 0 <= i < |q| ==> q[i] in q;
  }

  lemma UpdateLists(perSlot: map<nat, seq<PublicKey>>, q: seq<Entry>, auction: PublicKey, execute: bool)
    requires Lists(perSlot, q)
    ensures Lists(perSlot, Rewritten(q, auction, execute))
  {
    forall s ensures KeysAt(Rewritten(q, auction, execute), s) == KeysAt(q, s) {
      RewrittenKeepsKeys(q, auction, execute, s);
    }
  }

  lemma UpdateIndexes(auctions: map<PublicKey, AuctionDetails>, q: seq<Entry>, auction: PublicKey, execute: bool)
    requires Indexes(auctions, q) && auction in auctions
    ensures Indexes(auctions[auction := auctions[auction].(execute := execute)], Rewritten(q, auction, execute))
  {
    var q', auctions' := Rewritten(q, auction, execute), auctions[auction := auctions[auction].(execute := execute)];
    assert forall i :: 0 <= i < |q| ==> q[i] in q;
    forall k | k in auctions' ensures Entry(k, auctions'[k]) in q' {
      var i :| 0 <= i < |q| && q[i] == Entry(k, auctions[k]);
      assert q'[i] == Entry(k, auctions'[k]);
    }
  }

  lemma RewrittenElsewhere(auctions: map<PublicKey, AuctionDetails>, q: seq<Entry>, auction: PublicKey, execute: bool)
    requires Indexes(auctions, q) && auction !in auctions
    ensures Rewritten(q, auction, execute) == q
  {
    assert forall i :: 0 <= i < |q| ==> q[i] in q;
  }

  lemma DequeueRepresents(
    perSlot: map<nat, seq<PublicKey>>, auctions: map<PublicKey, AuctionDetails>, q: seq<Entry>, head: nat)
    requires Represents(perSlot, auctions, q) && head in perSlot
    ensures Represents(perSlot - {head}, auctions - KeySet(perSlot[head]), Without(q, head))
    ensures Taken(perSlot[head], auctions) == DueAt(q, head)
  {
    TakenIsDue(q, head, auctions);
    forall k ensures k in perSlot[head] <==> k in auctions && auctions[k].slot == head {
      KeysAtMembers(q, head, k);
    }
    WithoutIndexes(auctions, q, head, auctions - KeySet(perSlot[head]));
    WithoutLists(perSlot, q, head);
  }

  lemma WithoutIndexes(
    auctions: map<PublicKey, AuctionDetails>, q: seq<Entry>, head: nat, left: map<PublicKey, AuctionDetails>)
    requires Indexes(auctions, q)
    requires forall k :: k in left <==> k in auctions && auctions[k].slot != head
    requires forall k :: k in left ==> left[k] == auctions[k]
    ensures Indexes(left, Without(q, head))
  {
    WithoutMembers(q, head);
  }

  lemma WithoutLists(perSlot: map<nat, seq<PublicKey>>, q: seq<Entry>, head: nat)
    requires Lists(perSlot, q)
    ensures Lists(perSlot - {head}, Without(q, head))
  {
    forall s ensures KeysAt(Without(q, head), s) == if s == head then [] else KeysAt(q, s) {
      WithoutKeys(q, head, s);
    }
  }

  ghost predicate IsJournalOf(c: Calendar, q: seq<Entry>) {
    Represents(c.auctionsPerSlot, c.auctions, q)
  }

  lemma AddKeepsJournal(c: Calendar, q: seq<Entry>, e: Event)
    requires e.Add? && IsJournalOf(c, q) && e.auction !in c.auctions
    ensures IsJournalOf(Added(c, e.endSlot, e.auction, e.fastVaa, e.execute), JournalAfter(q, e, Head(c)))
  {
    hide Sort;
    var entry := Entry(e.auction, AuctionDetails(e.endSlot + 1, e.fastVaa, e.execute));
    AddLists(c.auctionsPerSlot, q, entry);
    AddIndexes(c.auctions, q, entry);
  }

  lemma DequeueKeepsJournal(c: Calendar, q: seq<Entry>)
    requires IsJournalOf(c, q) && c.slots != [] && c.slots[0] in c.auctionsPerSlot
    ensures IsJournalOf(Dequeued(c).0, Without(q, c.slots[0]))
    ensures Dequeued(c).1 == DueAt(q, c.slots[0])
  {
    DequeueRepresents(c.auctionsPerSlot, c.auctions, q, c.slots[0]);
  }

  lemma UpdateKeepsJournal(c: Calendar, q: seq<Entry>, auction: PublicKey, execute: bool)
    requires IsJournalOf(c, q)
    ensures IsJournalOf(Updated(c, auction, execute), Rewritten(q, auction, execute))
  {
    UpdateLists(c.auctionsPerSlot, q, auction, execute);
    if auction in c.auctions {
      UpdateIndexes(c.auctions, q, auction, execute);
    } else {
      RewrittenElsewhere(c.auctions, q, auction, execute);
    }
  }

  lemma StepKeepsJournal(c: Calendar, q: seq<Entry>, e: Event)
    requires Consistent(c) && IsJournalOf(c, q) && (e.Add? ==> e.auction !in c.auctions)
    ensures IsJournalOf(After(c, e), JournalAfter(q, e, Head(c)))
  {
    match e
    case Add(_, _, _, _) => AddKeepsJournal(c, q, e);
    case Update(auction, execute) => UpdateKeepsJournal(c, q, auction, execute);
    case Dequeue =>
    if c.slots != [] {
      DequeueKeepsJournal(c, q);
    }
  }

  /** As long as no pending auction is added again, the calendar is a journal: updates change
      the execute flag in place, and a dequeue returns exactly the entries of the head slot
      whose last-written flag is true, in insertion order, and drops that slot's entries. */
  lemma {:induction false} CalendarIsJournal(events: seq<Event>)
    requires AddsAreFresh(events)
    ensures IsJournalOf(Run(events), Journal(events))
    ensures Run(events).slots != [] ==>
      Returned(Run(events), Dequeue) == DueAt(Journal(events), Run(events).slots[0])
  {
    if events != [] {
      var init, e := events[..|events| - 1], events[|events| - 1];
      assert forall i :: 0 <= i < |init| ==> events[..i] == init[..i];
      CalendarIsJournal(init);
      StepKeepsJournal(Run(init), Journal(init), e);
    }
    if Run(events).slots != [] {
      DequeueKeepsJournal(Run(events), Journal(events));
    }
  }
}
