/** The dining tables (`tableOccupied`, `tableCapacity`, `initializeTables`)
    and the waitlist (`waitlist`, `waitlistCount`, `addToWaitlist`,
    `findAvailableTable`, `assignTableFromWaitlist`). */
module Waitlist {

  /** `MAX_TABLES`. */
  const MaxTables: int := 50
  /** `MAX_WAITLIST`. */
  const MaxWaitlist: int := 100

  /** `WaitlistEntry`; `requestTime` is the clock reading the caller passes
      in. */
  datatype WaitlistEntry = WaitlistEntry(waitlistId: int, customerId: int, partySize: int, requestTime: string, status: string)

  /** The seats `initializeTables` gives table i: 2, 4 and 6 in turn. */
  function SeatsAt(i: int): int
  {
    if i % 3 == 0 then 2 else if i % 3 == 1 then 4 else 6
  }

  /** Table i is free and seats the party. */
  predicate Fits(occupied: seq<bool>, capacity: seq<int>, i: int, party: int)
    requires 0 <= i < |occupied| == |capacity|
  {
    !occupied[i] && capacity[i] >= party
  }

  /** The first table from `from` on that fits the party, or -1. */
  ghost function FirstFit(occupied: seq<bool>, capacity: seq<int>, party: int, from: nat): (r: int)
    requires |occupied| == |capacity| && from <= |occupied|
    ensures r == -1 || from <= r < |occupied|
    ensures r != -1 ==> Fits(occupied, capacity, r, party)
    ensures r != -1 ==> forall j :: from <= j < r ==> !Fits(occupied, capacity, j, party)
    ensures r == -1 ==> forall j :: from <= j < |occupied| ==> !Fits(occupied, capacity, j, party)
    decreases |occupied| - from
  {
    if from == |occupied| then -1
    else if Fits(occupied, capacity, from, party) then from
    else FirstFit(occupied, capacity, party, from + 1)
  }

  /** The table layout `initializeTables` sets up. */
  ghost function InitialCapacity(): (cap: seq<int>)
    ensures |cap| == MaxTables
  {
    seq(MaxTables, SeatsAt)
  }

  /** With the initial layout, a party of more than six is never seated,
      whatever tables are taken. */
  lemma LargePartyNeverSeated(occupied: seq<bool>, party: int)
    requires |occupied| == MaxTables && party > 6
    ensures FirstFit(occupied, InitialCapacity(), party, 0) == -1
  {
  }

  /** In a freshly initialised room the first fit is the first table of
      the smallest size that seats the party: table 0 (2 seats), table 1
      (4 seats) or table 2 (6 seats). */
  lemma FirstFitWhenAllFree(party: int)
    ensures var r := FirstFit(seq(MaxTables, _ => false), InitialCapacity(), party, 0);
      r == if party <= 2 then 0 else if party <= 4 then 1 else if party <= 6 then 2 else -1
  {
    var free := seq(MaxTables, _ => false);
    var cap := InitialCapacity();
    assert cap[0] == 2 && cap[1] == 4 && cap[2] == 6;
    if 2 < party <= 6 {
      assert FirstFit(free, cap, party, 0) == FirstFit(free, cap, party, 1);
      if party > 4 {
        assert FirstFit(free, cap, party, 1) == FirstFit(free, cap, party, 2);
      }
    } else if party > 6 {
      LargePartyNeverSeated(free, party);
    }
  }

  /** The tables and the waitlist. */
  class Seating {
    var tableOccupied: array<bool>
    var tableCapacity: array<int>
    var waitlist: array<WaitlistEntry>
    var waitlistCount: int

    ghost predicate Valid()
      reads this
    {
      && tableOccupied.Length == MaxTables && tableCapacity.Length == MaxTables
      && waitlist.Length == MaxWaitlist && 0 <= waitlistCount <= MaxWaitlist
    }

    /** The parties waiting, first come first. */
    ghost function Entries(): seq<WaitlistEntry>
      reads this, waitlist
      requires Valid()
    {
      waitlist[..waitlistCount]
    }

    /** The table `findAvailableTable(party)` should pick. */
    ghost function Fit(party: int): int
      reads this, tableOccupied, tableCapacity
      requires Valid()
    {
      FirstFit(tableOccupied[..], tableCapacity[..], party, 0)
    }

    constructor (filler: WaitlistEntry)
      ensures Valid() && fresh(tableOccupied) && fresh(tableCapacity) && fresh(waitlist)
      ensures Entries() == []
    {
      tableOccupied := new bool[MaxTables](_ => false);
      tableCapacity := new int[MaxTables](_ => 0);
      waitlist := new WaitlistEntry[MaxWaitlist](_ => filler);
      waitlistCount := 0;
    }

    /** `initializeTables()`: every table free, with 2, 4 and 6 seats in
        turn. */
    method InitializeTables()
      requires Valid()
      modifies tableOccupied, tableCapacity
      ensures tableOccupied[..] == seq(MaxTables, _ => false)
      ensures tableCapacity[..] == InitialCapacity()
    {
      for i := 0 to MaxTables
        invariant forall j :: 0 <= j < i ==> !tableOccupied[j] && tableCapacity[j] == SeatsAt(j)
      {
        tableOccupied[i] := false;
        tableCapacity[i] := if i % 3 == 0 then 2 else if i % 3 == 1 then 4 else 6;
      }
    }

    /** `addToWaitlist(customerId, partySize)`: a full waitlist refuses the
        party; otherwise it joins the end as "Waiting" with its position as
        its id. */
    method AddToWaitlist(customerId: int, partySize: int, requestTime: string) returns (added: bool)
      requires Valid()
      modifies this, waitlist
      ensures Valid() && waitlist == old(waitlist)
      ensures tableOccupied == old(tableOccupied) && tableCapacity == old(tableCapacity)
      ensures added <==> old(waitlistCount) < MaxWaitlist
      ensures !added ==> waitlistCount == old(waitlistCount) && waitlist[..] == old(waitlist[..])
      ensures added ==>
                && waitlistCount == old(waitlistCount) + 1
                && waitlist[..] == old(waitlist[..])[old(waitlistCount) :=
                     WaitlistEntry(old(waitlistCount) + 1, customerId, partySize, requestTime, "Waiting")]
      ensures added ==>
                Entries() == old(Entries()) + [WaitlistEntry(old(waitlistCount) + 1, customerId, partySize, requestTime, "Waiting")]
    {
      if waitlistCount >= MaxWaitlist {
        return false;
      }
      waitlist[waitlistCount] := WaitlistEntry(waitlistCount + 1, customerId, partySize, requestTime, "Waiting");
      waitlistCount := waitlistCount + 1;
      added := true;
    }

    /** `findAvailableTable(partySize)`: the first free table with enough
        seats, or -1. */
    method FindAvailableTable(partySize: int) returns (index: int)
      requires Valid()
      ensures index == Fit(partySize)
    {
      for i := 0 to MaxTables
        invariant Fit(partySize) == FirstFit(tableOccupied[..], tableCapacity[..], partySize, i)
      {
        if !tableOccupied[i] && tableCapacity[i] >= partySize {
          return i;
        }
      }
      return -1;
    }

    /** `assignTableFromWaitlist()`: when the first waiting party fits a
        table, that table is taken and the party leaves the front of the
        waitlist (the later entries each move up one slot; the last slot
        keeps its old copy). When the list is empty, or the first party fits
        no table, nothing changes, even if a later party would fit. The
        "Seated" status is written only to a local copy of the entry, so it
        leaves no trace. */
    method AssignTableFromWaitlist() returns (seated: bool)
      requires Valid()
      modifies this, tableOccupied, waitlist
      ensures Valid() && waitlist == old(waitlist)
      ensures tableOccupied == old(tableOccupied) && tableCapacity == old(tableCapacity)
      ensures seated <==> old(waitlistCount) > 0 && old(Fit(waitlist[0].partySize)) != -1
      ensures !seated ==>
                && waitlistCount == old(waitlistCount)
                && waitlist[..] == old(waitlist[..]) && tableOccupied[..] == old(tableOccupied[..])
      ensures seated ==>
                && waitlistCount == old(waitlistCount) - 1
                && tableOccupied[..] == old(tableOccupied[..])[old(Fit(waitlist[0].partySize)) := true]
                && waitlist[..] == old(waitlist[1..waitlistCount]) + old(waitlist[waitlistCount - 1..])
                && Entries() == old(Entries())[1..]
    {
      if waitlistCount == 0 {
        return false;
      }
      var entry := waitlist[0];
      var tableNum := FindAvailableTable(entry.partySize);
      if tableNum == -1 {
        return false;
      }
      tableOccupied[tableNum] := true;
      ghost var occupied := tableOccupied[..];
      for i := 0 to waitlistCount - 1
        invariant tableOccupied == old(tableOccupied) && tableCapacity == old(tableCapacity)
        invariant waitlist == old(waitlist) && waitlistCount == old(waitlistCount)
        invariant waitlist[..i] == old(waitlist[1..i + 1])
        invariant waitlist[i..] == old(waitlist[i..])
        invariant tableOccupied[..] == occupied
      {
        waitlist[i] := waitlist[i + 1];
        assert waitlist[..i + 1] == old(waitlist[1..i + 1]) + [old(waitlist[i + 1])];
      }
      waitlistCount := waitlistCount - 1;
      seated := true;
    }
  }
}
