/** Two defects of the growing ingredient table as written, each shown on a
    table that `insert` itself builds from the empty table.

    1. The load check lets 70% of the slots fill, but the growing-step probe
       visits only (size + 1) / 2 distinct slots. With 27 of the 53 slots
       used (below the 0.7 threshold) a name whose probe meets only used
       slots makes `insert` and `retrieve` loop forever.

    2. `rehash` resizes the old vector in place, so the old copies stay where
       they were while the names are inserted again. A name whose new home
       differs from its old slot ends up in two slots; `itemCount` counts
       only the names that moved; and a later update of such a name reaches
       only its live copy, so `getAllItems` lists its old item beside the
       new one. */
module InventoryFindings {
  import opened Wrappers
  import opened Primes
  import opened Probing
  import opened InventoryTable

  /** The empty table of the constructor. */
  function EmptyTable(): seq<HashNode>
  {
    seq(InitialSize, _ => EmptyNode)
  }

  /** The item inserted under a name in these scenarios. */
  function ItemNamed(n: string): InventoryItem
  {
    InventoryItem(n, 1, "kg", 0)
  }

  /** Inserting the names one after another into the empty table. */
  ghost function InsertAll(names: seq<string>): Outcome<(seq<HashNode>, int)>
  {
    if names == [] then Done((EmptyTable(), 0))
    else
      match InsertAll(names[..|names| - 1])
      case Hangs => Hangs
      case Done((t, c)) =>
        if |t| > 0 then InsertAsWritten(t, c, names[|names| - 1], ItemNamed(names[|names| - 1])) else Hangs
  }

  /** Each name of `names` written on its home slot of the empty table. */
  function HomeTable(names: seq<string>): (r: seq<HashNode>)
    ensures |r| == InitialSize
  {
    if names == [] then EmptyTable()
    else
      var n := names[|names| - 1];
      HomeTable(names[..|names| - 1])[Hash(n, InitialSize) := HashNode(n, ItemNamed(n), true)]
  }

  ghost predicate DistinctHomes(names: seq<string>)
  {
    forall i, j :: 0 <= i < j < |names| ==> Hash(names[i], InitialSize) != Hash(names[j], InitialSize)
  }

  /** A slot that is no name's home stays unused. */
  lemma {:induction false} HomeTableFree(names: seq<string>, s: int)
    requires 0 <= s < InitialSize
    requires forall i :: 0 <= i < |names| ==> Hash(names[i], InitialSize) != s
    ensures HomeTable(names)[s] == EmptyNode
  {
    if names != [] {
      HomeTableFree(names[..|names| - 1], s);
    }
  }

  /** With distinct homes, each name sits on its home slot. */
  lemma {:induction false} HomeTableHolds(names: seq<string>, j: int)
    requires DistinctHomes(names) && 0 <= j < |names|
    ensures HomeTable(names)[Hash(names[j], InitialSize)] == HashNode(names[j], ItemNamed(names[j]), true)
  {
    if j < |names| - 1 {
      HomeTableHolds(names[..|names| - 1], j);
    }
  }

  /** Inserting up to 38 names with distinct homes never triggers the load
      check, puts each name on its home slot and counts each one. */
  lemma {:induction false} FillHomes(names: seq<string>)
    requires |names| <= 38 && DistinctHomes(names)
    ensures InsertAll(names) == Done((HomeTable(names), |names|))
  {
    if names != [] {
      var prefix, n := names[..|names| - 1], names[|names| - 1];
      FillHomes(prefix);
      var t := HomeTable(prefix);
      var h := Hash(n, InitialSize);
      HomeTableFree(prefix, h);
      ProbeHome(h, InitialSize);
      assert Find(t, n) == Some(h);
      assert !NeedsRehash(|prefix|, InitialSize);
    }
  }

  lemma SingleCharSum(c: char)
    ensures CharSum([c]) == c as nat
  {
    assert [c][..0] == [];
  }

  // ---------------------------------------------------------------------
  // 1. A probe that never ends below the load threshold
  // ---------------------------------------------------------------------

  /** The k-th name of the scenario: one character whose code is 53 more than
      the k-th probe slot from slot 0, so that its home is that slot. */
  function ProbeName(k: nat): string
  {
    [(InitialSize + ProbeSlot(0, InitialSize, k)) as char]
  }

  function ProbeNames(): seq<string>
  {
    seq(27, k requires 0 <= k < 27 => ProbeName(k))
  }

  lemma ProbeNameHome(k: nat)
    ensures Hash(ProbeName(k), InitialSize) == ProbeSlot(0, InitialSize, k)
  {
    var s := ProbeSlot(0, InitialSize, k);
    SingleCharSum((InitialSize + s) as char);
    ModShift(s, InitialSize, 1);
  }

  lemma ProbeNamesDistinctHomes()
    ensures DistinctHomes(ProbeNames())
  {
    FiftyThreeIsPrime();
    forall i, j | 0 <= i < j < 27
      ensures Hash(ProbeNames()[i], InitialSize) != Hash(ProbeNames()[j], InitialSize)
    {
      ProbeNameHome(i);
      ProbeNameHome(j);
      ProbesDistinct(InitialSize, 0, i, j);
    }
  }

  /** Every probe of "55" (character sum 106, home slot 0) meets a slot used
      by a one-character name. */
  lemma NoProbeStops(k: nat)
    ensures !Stops(HomeTable(ProbeNames()), "55", ProbeSlot(0, InitialSize, k))
  {
    var s := ProbeSlot(0, InitialSize, k);
    ProbeWithinHalf(0, InitialSize, k);
    var j := ReachedIndex(0, InitialSize, 27, s);
    ProbeNamesDistinctHomes();
    ProbeNameHome(j);
    HomeTableHolds(ProbeNames(), j);
  }

  /** After 27 inserts into the 53-slot table (a load of about 0.51, under
      the 0.7 threshold, so no rehash), `insert("55", ...)` and
      `retrieve("55", ...)` never return. */
  lemma ProbeHangsBelowThreshold(item: InventoryItem)
    ensures InsertAll(ProbeNames()) == Done((HomeTable(ProbeNames()), 27))
    ensures !NeedsRehash(27, InitialSize)
    ensures InsertAsWritten(HomeTable(ProbeNames()), 27, "55", item) == Hangs
    ensures Lookup(HomeTable(ProbeNames()), "55") == Hangs
  {
    ProbeNamesDistinctHomes();
    FillHomes(ProbeNames());
    var t := HomeTable(ProbeNames());
    assert CharSum("55") == 106 by {
      assert "55"[..1] == "5";
      SingleCharSum('5');
    }
    assert Hash("55", InitialSize) == 0;
    forall k | 0 <= k < InitialSize
      ensures !Stops(t, "55", ProbeSlot(0, InitialSize, k))
    {
      NoProbeStops(k);
    }
    assert Find(t, "55").None?;
  }

  // ---------------------------------------------------------------------
  // 2. The in-place rehash
  // ---------------------------------------------------------------------

  /** "77": character sum 110, home slot 4 of 53 and slot 3 of 107. */
  const Moved: string := "77"

  function Code(c: int): string
    requires 0 <= c < 0xD800
  {
    [c as char]
  }

  /** "77" and then the names with codes 5 to 41, each on its own slot. */
  function RehashNames(): seq<string>
  {
    [Moved] + seq(37, i requires 0 <= i < 37 => Code(5 + i))
  }

  lemma MovedSum()
    ensures CharSum(Moved) == 110
  {
    assert Moved[..1] == "7";
    SingleCharSum('7');
  }

  lemma CodeHome(c: int, m: int)
    requires 0 <= c < m && c < 0xD800
    ensures Hash(Code(c), m) == c
  {
    SingleCharSum(c as char);
  }

  lemma RehashNamesDistinctHomes()
    ensures DistinctHomes(RehashNames())
    ensures Hash(Moved, InitialSize) == 4
    ensures forall i :: 1 <= i < 38 ==> Hash(RehashNames()[i], InitialSize) == 4 + i
  {
    MovedSum();
    forall i | 1 <= i < 38 ensures Hash(RehashNames()[i], InitialSize) == 4 + i {
      CodeHome(4 + i, InitialSize);
    }
  }

  lemma PrimeAfter106()
    ensures LeastPrimeFrom(106) == 107
  {
    forall d | 2 <= d < 11 ensures !Divides(d, 107) {
      ModZeroIsDivides(d, 107);
    }
    TrialDivisionSuffices(107, 11);
    assert Divides(2, 106) by {
      ModZeroIsDivides(2, 106);
    }
    LeastPrimeUnique(106, 107, LeastPrimeFrom(106));
  }

  /** Reinsertion of slots that are their names' new homes and still hold
      them in the resized table changes nothing and counts nothing. */
  lemma {:induction false} SelfReinsert(src: seq<HashNode>, from: nat, t: seq<HashNode>, count: int)
    requires from <= |src| <= |t| && |t| > 0
    requires forall i :: from <= i < |src| && src[i].used ==> Hash(src[i].name, |t|) == i && t[i] == src[i]
    ensures Reinsert(src, from, t, count) == Done((t, count))
    decreases |src| - from
  {
    if from < |src| {
      if src[from].used {
        var h := Hash(src[from].name, |t|);
        ProbeHome(h, |t|);
        assert Find(t, src[from].name) == Some(from);
        assert t[from := HashNode(src[from].name, src[from].item, true)] == t;
      }
      SelfReinsert(src, from + 1, t, count);
    }
  }

  /** The table after the 38 inserts. */
  function Filled(): seq<HashNode>
  {
    HomeTable(RehashNames())
  }

  /** The table `rehash` leaves: the resized vector with "77" written again
      on its new home slot 3; its old copy stays on slot 4. */
  function AfterRehash(): seq<HashNode>
  {
    Resized(Filled(), 107)[3 := HashNode(Moved, ItemNamed(Moved), true)]
  }

  lemma FilledSlots()
    ensures forall s :: 0 <= s < 4 ==> Filled()[s] == EmptyNode
    ensures Filled()[4] == HashNode(Moved, ItemNamed(Moved), true)
    ensures forall s :: 42 <= s < InitialSize ==> Filled()[s] == EmptyNode
    ensures forall s :: 5 <= s < 42 ==> Filled()[s] == HashNode(Code(s), ItemNamed(Code(s)), true)
  {
    RehashNamesDistinctHomes();
    forall s | 0 <= s < InitialSize && (s < 4 || s >= 42) ensures Filled()[s] == EmptyNode {
      HomeTableFree(RehashNames(), s);
    }
    HomeTableHolds(RehashNames(), 0);
    forall s | 5 <= s < 42
      ensures Filled()[s] == HashNode(Code(s), ItemNamed(Code(s)), true)
    {
      HomeTableHolds(RehashNames(), s - 4);
    }
  }

  lemma RehashResult()
    ensures RehashAsWritten(Filled(), 107) == Done((AfterRehash(), 1))
  {
    FilledSlots();
    var src, r := Filled(), Resized(Filled(), 107);
    MovedSum();
    assert Hash(Moved, 107) == 3;
    assert ProbeSlot(3, 107, 0) == 3;
    assert Find(r, Moved) == Some(3);
    forall i | 5 <= i < |src| && src[i].used
      ensures Hash(src[i].name, 107) == i && AfterRehash()[i] == src[i]
    {
      assert r[..|src|][i] == r[i];
      CodeHome(i, 107);
    }
    SelfReinsert(src, 5, AfterRehash(), 1);
    assert Reinsert(src, 0, r, 0) == Reinsert(src, 4, r, 0);
  }

  /** The table after the 39th insert. */
  function After39(): seq<HashNode>
  {
    AfterRehash()[42 := HashNode(Code(42), ItemNamed(Code(42)), true)]
  }

  lemma Insert39Result()
    ensures InsertAsWritten(Filled(), 38, Code(42), ItemNamed(Code(42))) == Done((After39(), 2))
  {
    PrimeAfter106();
    RehashResult();
    FilledSlots();
    var a := AfterRehash();
    CodeHome(42, 107);
    assert ProbeSlot(42, 107, 0) == 42;
    assert a[42] == Resized(Filled(), 107)[..InitialSize][42];
    assert Find(a, Code(42)) == Some(42);
  }

  lemma After39Stores()
    ensures WellFormedSlots(After39())
    ensures Stored(After39()) == LastCopyView(Filled())[Code(42) := ItemNamed(Code(42))]
  {
    PrimeAfter106();
    RehashResult();
    Insert39Result();
    RehashAsWrittenView(Filled(), 107);
    var a := AfterRehash();
    PlaceStored(a, Code(42), ItemNamed(Code(42)));
  }

  /** Every used slot of a home table holds its name's item. */
  lemma {:induction false} HomeTableItems(names: seq<string>, s: int)
    requires 0 <= s < InitialSize && HomeTable(names)[s].used
    ensures HomeTable(names)[s].item == ItemNamed(HomeTable(names)[s].name)
  {
    if names != [] && s != Hash(names[|names| - 1], InitialSize) {
      HomeTableItems(names[..|names| - 1], s);
    }
  }

  /** The 39 names inserted in this scenario. */
  function Names39(): seq<string>
  {
    RehashNames() + [Code(42)]
  }

  lemma Names39Found(n: string)
    requires n in Names39()
    ensures Lookup(After39(), n) == Done(Some(ItemNamed(n)))
  {
    After39Stores();
    RehashNamesDistinctHomes();
    if n != Code(42) {
      var i :| 0 <= i < 38 && RehashNames()[i] == n;
      HomeTableHolds(RehashNames(), i);
      assert n in UsedNames(Filled());
      var j := LastCopy(Filled(), |Filled()|, n);
      assert n in NamesBelow(Filled(), |Filled()|);
      LastCopyFound(Filled(), |Filled()|, n);
      HomeTableItems(RehashNames(), j);
    }
    LookupStored(After39(), n);
  }

  /** The 39th insert: after 38 inserts the load check (38 / 53 >= 0.7)
      triggers `rehash` to 107 slots. Afterwards "77" occupies slots 3 and 4,
      and `getSize()` reports 2 although all 39 names are stored and found. */
  lemma RehashKeepsStaleCopy()
    ensures InsertAll(RehashNames()) == Done((Filled(), 38)) && NeedsRehash(38, InitialSize)
    ensures InsertAsWritten(Filled(), 38, Code(42), ItemNamed(Code(42))) == Done((After39(), 2))
    ensures StaleMoved(After39()) && WellFormedSlots(After39())
    ensures forall n :: n in Names39() ==> Lookup(After39(), n) == Done(Some(ItemNamed(n)))
  {
    RehashNamesDistinctHomes();
    FillHomes(RehashNames());
    Insert39Result();
    FilledSlots();
    var t := After39();
    assert StaleMoved(t) by {
      forall i | 4 < i < |t| ensures !(t[i].used && t[i].name == Moved) {
        if i < InitialSize {
          assert t[i] == Filled()[i] || i == 42 by {
            assert Resized(Filled(), 107)[..InitialSize][i] == Filled()[i];
          }
        }
      }
    }
    After39Stores();
    forall n | n in Names39() ensures Lookup(After39(), n) == Done(Some(ItemNamed(n))) {
      Names39Found(n);
    }
  }

  /** "77" live on slot 3 and stale on slot 4, with no copy above slot 4. */
  ghost predicate StaleMoved(t: seq<HashNode>)
  {
    && |t| == 107
    && t[3].used && t[3].name == Moved
    && t[4].used && t[4].name == Moved
    && forall i :: 4 < i < |t| ==> !(t[i].used && t[i].name == Moved)
  }

  /** Inserting any other name leaves both copies of "77" as they are. */
  lemma PlaceOtherKeepsStale(t: seq<HashNode>, n: string, item: InventoryItem)
    requires StaleMoved(t) && n != Moved && Place(t, n, item).Some?
    ensures var t' := Place(t, n, item).value.0;
      StaleMoved(t') && t'[3] == t[3] && t'[4] == t[4]
  {
  }

  /** Updating "77" writes the live copy on slot 3 only. */
  lemma UpdateMovedWritesLive(t: seq<HashNode>, item: InventoryItem)
    requires StaleMoved(t)
    ensures Place(t, Moved, item) == Some((t[3 := HashNode(Moved, item, true)], false))
  {
    MovedSum();
    assert Hash(Moved, 107) == 3;
    assert ProbeSlot(3, 107, 0) == 3;
  }

  /** On such a table the probe for "77" ends on the live copy. */
  lemma StaleMovedFind(t: seq<HashNode>)
    requires StaleMoved(t)
    ensures Find(t, Moved) == Some(3)
  {
    MovedSum();
    assert Hash(Moved, 107) == 3;
    assert ProbeSlot(3, 107, 0) == 3;
  }

  /** The update that follows the 39th insert: inserting "77" with a new
      item writes slot 3 and counts nothing, so `getSize()` still reports 2.
      `retrieve("77")` returns the new item, but `getAllItems()` lists both
      the new item and the old one left on slot 4. */
  lemma UpdateLeavesStaleItem(item: InventoryItem)
    ensures var t := After39()[3 := HashNode(Moved, item, true)];
      && InsertAsWritten(After39(), 2, Moved, item) == Done((t, 2))
      && Lookup(t, Moved) == Done(Some(item))
      && item in UsedItems(t) && ItemNamed(Moved) in UsedItems(t)
  {
    var a := After39();
    var t := a[3 := HashNode(Moved, item, true)];
    OldItemOnSlot4();
    UpdateMovedWritesLive(a, item);
    assert !NeedsRehash(2, |a|);
    assert StaleMoved(t);
    StaleMovedFind(t);
    UsedItemsHas(t, 3);
    UsedItemsHas(t, 4);
  }

  /** After the 39th insert slot 4 still holds "77" with its first item. */
  lemma OldItemOnSlot4()
    ensures StaleMoved(After39()) && After39()[4] == HashNode(Moved, ItemNamed(Moved), true)
  {
    RehashKeepsStaleCopy();
    FilledSlots();
    assert Resized(Filled(), 107)[..InitialSize][4] == Filled()[4];
  }
}
