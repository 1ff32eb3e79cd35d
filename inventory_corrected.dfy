/** The growing ingredient table with its two defects corrected: `rehash`
    reinserts into a fresh table of unused slots instead of the resized old
    vector, and the table grows once half of its slots are used, so that the
    probe for any name always meets a free slot among its first
    (size + 1) / 2 probes. On these terms every insert returns, the count is
    the number of stored names, and the stored items survive every rehash. */
module InventoryCorrected {
  import opened Wrappers
  import opened Primes
  import opened Probing
  import opened InventoryTable

  /** Grow before an insert that could fill half of the slots. */
  predicate NeedsGrow(count: int, size: int)
  {
    2 * (count + 1) >= size
  }

  /** The used slots below `upto`. */
  function SlotsBelow(t: seq<HashNode>, upto: nat): set<int>
    requires upto <= |t|
  {
    set i | 0 <= i < upto && t[i].used
  }

  /** The invariant of the corrected table: a prime size, every name found,
      one slot per name, the count equal to the used slots, and fewer than
      half of the slots in use. */
  ghost predicate StoreValid(t: seq<HashNode>, count: int)
  {
    && |t| >= InitialSize && IsPrime(|t|)
    && WellFormedSlots(t) && UniqueNames(t)
    && count == |UsedSlots(t)|
    && 2 * count < |t|
  }

  /** The empty table of the constructor satisfies the invariant. */
  lemma EmptyStoreValid()
    ensures StoreValid(seq(InitialSize, _ => EmptyNode), 0)
    ensures Stored(seq(InitialSize, _ => EmptyNode)) == map[]
  {
    var t := seq(InitialSize, _ => EmptyNode);
    FiftyThreeIsPrime();
    assert UsedSlots(t) == {};
  }

  /** On a prime table with fewer than (size + 1) / 2 used slots the probe for
      any name stops: Place never hangs. */
  lemma PlaceRoom(t: seq<HashNode>, name: string, item: InventoryItem)
    requires |t| > 0 && IsPrime(|t|) && |UsedSlots(t)| < (|t| + 1) / 2
    ensures Place(t, name, item).Some?
  {
    var home := Hash(name, |t|);
    var k := FreeSlotWithinReach(|t|, home, UsedSlots(t));
    var s := ProbeSlot(home, |t|, k);
    assert Stops(t, name, s);
  }

  /** Place uses one more slot exactly when it reports a free slot. */
  lemma PlaceSlots(t: seq<HashNode>, name: string, item: InventoryItem)
    requires |t| > 0 && Place(t, name, item).Some?
    ensures var (t', isNew) := Place(t, name, item).value;
      |UsedSlots(t')| == |UsedSlots(t)| + if isNew then 1 else 0
  {
    var (t', isNew) := Place(t, name, item).value;
    var i := Find(t, name).value;
    assert UsedSlots(t') == UsedSlots(t) + {i};
    if !isNew {
      assert UsedSlots(t') == UsedSlots(t);
    } else {
      assert i !in UsedSlots(t);
    }
  }

  /** Place keeps one slot per name. */
  lemma PlaceUnique(t: seq<HashNode>, name: string, item: InventoryItem)
    requires WellFormedSlots(t) && UniqueNames(t) && Place(t, name, item).Some?
    ensures UniqueNames(Place(t, name, item).value.0)
  {
    var t' := Place(t, name, item).value.0;
    var i := Find(t, name).value;
    forall a, b | 0 <= a < |t'| && 0 <= b < |t'| && t'[a].used && t'[b].used && t'[a].name == t'[b].name
      ensures a == b
    {
      if a != i && b != i {
        assert t[a] == t'[a] && t[b] == t'[b];
      } else if a != i {
        FoundSlot(t, name, a);
      } else if b != i {
        FoundSlot(t, name, b);
      }
    }
  }

  /** With one slot per name, the probe for a stored name ends on its slot. */
  lemma FoundSlot(t: seq<HashNode>, name: string, a: int)
    requires WellFormedSlots(t) && UniqueNames(t) && 0 <= a < |t| && t[a].used && t[a].name == name
    ensures Find(t, name) == Some(a)
  {
    assert name in UsedNames(t);
  }

  lemma SlotsBelowStep(t: seq<HashNode>, from: nat)
    requires from < |t|
    ensures SlotsBelow(t, from + 1) == SlotsBelow(t, from) + (if t[from].used then {from} else {})
  {
  }

  /** The state of the corrected reinsertion after the slots below `from`:
      the names below `from` are stored once each, and the count is the
      number of used slots below `from`. */
  ghost predicate FreshInv(src: seq<HashNode>, from: nat, t: seq<HashNode>, count: int)
    requires from <= |src|
  {
    && |t| > 0 && IsPrime(|t|)
    && UniqueNames(src) && |UsedSlots(src)| < (|t| + 1) / 2
    && ReinsertInv(src, from, t) && UniqueNames(t) && UsedNames(t) == NamesBelow(src, from)
    && count == |UsedSlots(t)| == |SlotsBelow(src, from)|
  }

  /** One placement of the corrected reinsertion finds a free slot and keeps
      the invariant. */
  lemma FreshStep(src: seq<HashNode>, from: nat, t: seq<HashNode>, count: int)
    requires from < |src| && src[from].used && FreshInv(src, from, t, count)
    ensures Place(t, src[from].name, src[from].item).Some?
    ensures var (t2, isNew) := Place(t, src[from].name, src[from].item).value;
      isNew && FreshInv(src, from + 1, t2, count + 1)
  {
    var name, item := src[from].name, src[from].item;
    SlotsBelowStep(src, from);
    NamesBelowStep(src, from);
    SubsetSize(SlotsBelow(src, from + 1), UsedSlots(src));
    assert WellFormedSlots(t);
    PlaceRoom(t, name, item);
    ReinsertStep(src, from, t);
    PlaceFresh(t, name, item);
    PlaceSlots(t, name, item);
    PlaceUnique(t, name, item);
    PlaceNames(t, name, item);
    assert name !in NamesBelow(src, from);
  }

  /** An unused slot of the corrected reinsertion keeps the invariant. */
  lemma FreshSkip(src: seq<HashNode>, from: nat, t: seq<HashNode>, count: int)
    requires from < |src| && !src[from].used && FreshInv(src, from, t, count)
    ensures FreshInv(src, from + 1, t, count)
  {
    SlotsBelowStep(src, from);
    NamesBelowStep(src, from);
    ReinsertStep(src, from, t);
  }

  /** Reinserting a table with one slot per name into a table on which its
      used slots fit within reach: every placement lands on a free slot, so
      the loop ends, counts every used slot once and keeps one slot per name. */
  lemma {:induction false} FreshReinsert(src: seq<HashNode>, from: nat, t: seq<HashNode>, count: int)
    requires from <= |src| && FreshInv(src, from, t, count)
    ensures Reinsert(src, from, t, count).Done?
    ensures var (t', c) := Reinsert(src, from, t, count).value;
      UniqueNames(t') && c == |UsedSlots(t')| == |UsedSlots(src)|
    decreases |src| - from
  {
    if from == |src| {
      assert SlotsBelow(src, from) == UsedSlots(src);
    } else if src[from].used {
      FreshStep(src, from, t, count);
      var (t2, isNew) := Place(t, src[from].name, src[from].item).value;
      FreshReinsert(src, from + 1, t2, count + 1);
    } else {
      FreshSkip(src, from, t, count);
      FreshReinsert(src, from + 1, t, count);
    }
  }

  /** With one slot per name, the names and the used slots are equally many. */
  lemma {:induction false} NamesMatchSlots(t: seq<HashNode>, upto: nat)
    requires upto <= |t| && UniqueNames(t)
    ensures |NamesBelow(t, upto)| == |SlotsBelow(t, upto)|
  {
    if upto > 0 {
      NamesMatchSlots(t, upto - 1);
      NamesBelowStep(t, upto - 1);
      SlotsBelowStep(t, upto - 1);
      if t[upto - 1].used {
        assert upto - 1 !in SlotsBelow(t, upto - 1);
        assert t[upto - 1].name !in NamesBelow(t, upto - 1);
      }
    }
  }

  /** The count kept by the invariant is the number of stored names. */
  lemma CountIsNames(t: seq<HashNode>, count: int)
    requires StoreValid(t, count)
    ensures count == |Stored(t)|
  {
    NamesMatchSlots(t, |t|);
    assert NamesBelow(t, |t|) == UsedNames(t);
    assert SlotsBelow(t, |t|) == UsedSlots(t);
  }

  /** The corrected `rehash`: the used slots of `t`, in index order, are
      inserted into a fresh table of `newSize` unused slots. */
  ghost function CorrectedRehash(t: seq<HashNode>, count: int, newSize: int): (r: (seq<HashNode>, int))
    requires StoreValid(t, count) && IsPrime(newSize) && newSize >= 2 * |t|
    ensures StoreValid(r.0, r.1) && |r.0| == newSize && r.1 == count
    ensures Stored(r.0) == Stored(t)
  {
    var empty := seq(newSize, _ => EmptyNode);
    FreshStarts(t, newSize);
    assert UsedSlots(empty) == {} && SlotsBelow(t, 0) == {};
    FreshReinsert(t, 0, empty, 0);
    ReinsertView(t, 0, empty, 0);
    UniqueLastCopy(t);
    Reinsert(t, 0, empty, 0).value
  }

  /** The corrected `insert`: grow (to the least prime at or above twice the
      size) when the insert could fill half of the slots, then probe and
      write. It always
      returns; it stores the item under the name and keeps every other item;
      the count grows exactly when the name is new. */
  ghost function CorrectedInsert(t: seq<HashNode>, count: int, name: string, item: InventoryItem): (r: (seq<HashNode>, int))
    requires StoreValid(t, count)
    ensures StoreValid(r.0, r.1)
    ensures Stored(r.0) == Stored(t)[name := item]
    ensures r.1 == if name in Stored(t) then count else count + 1
  {
    var (t1, c1) := if NeedsGrow(count, |t|) then CorrectedRehash(t, count, LeastPrimeFrom(2 * |t|)) else (t, count);
    PlaceRoom(t1, name, item);
    PlaceStored(t1, name, item);
    PlaceFresh(t1, name, item);
    PlaceSlots(t1, name, item);
    PlaceUnique(t1, name, item);
    var (t2, isNew) := Place(t1, name, item).value;
    (t2, if isNew then c1 + 1 else c1)
  }

  /** The corrected `retrieve` never hangs and reports exactly what was stored. */
  lemma CorrectedRetrieve(t: seq<HashNode>, count: int, name: string)
    requires StoreValid(t, count)
    ensures Lookup(t, name) == Done(if name in Stored(t) then Some(Stored(t)[name]) else None)
  {
    PlaceRoom(t, name, EmptyItem);
    LookupStored(t, name);
  }
}
