/** The two ingredient tables: the fixed 101-slot table (`inventoryTable`,
    `inventoryUsed`, `simpleHash`, `probeIndex`) and the growing
    `DynamicInventoryTable`. Both hash a name to the sum of its character
    codes and probe with a growing step, so the k-th probe from the home slot
    h lands on (h + 1 + 2 + ... + k) mod size.

    The C++ probe loop has no bound: it stops on a free slot or on a slot
    holding the name, and otherwise runs forever. On an odd table size the
    probe sequence is periodic, so when none of the first `size` probes stops
    none ever does; the model therefore bounds the loop and reports `Hangs`
    exactly where the C++ loop would never return. */
module InventoryTable {
  import opened Wrappers
  import opened Primes
  import opened Probing

  /** `DynamicInventoryTable::INITIAL_SIZE`. */
  const InitialSize: int := 53
  /** `HASH_SIZE` of the fixed table. */
  const HashSize: int := 101

  /** `InventoryItem`, without its floating-point `costPerUnit`. */
  datatype InventoryItem = InventoryItem(name: string, quantity: int, unit: string, reorderLevel: int)

  /** `DynamicInventoryTable::HashNode`: a default-constructed node is unused. */
  datatype HashNode = HashNode(name: string, item: InventoryItem, used: bool)

  /** What a call does: returns a value, or never returns (the probe loop spins). */
  datatype Outcome<T> = Done(value: T) | Hangs

  const EmptyItem: InventoryItem := InventoryItem("", 0, "", 0)
  const EmptyNode: HashNode := HashNode("", EmptyItem, false)

  /** The sum of the character codes of a name. */
  function CharSum(s: string): nat
  {
    if s == [] then 0 else CharSum(s[..|s| - 1]) + s[|s| - 1] as nat
  }

  /** The home slot of a name in a table of m slots (`simpleHash`, `hash`). */
  function Hash(key: string, m: int): (r: int)
    requires m > 0
    ensures 0 <= r < m
  {
    CharSum(key) % m
  }

  /** The probe loop stops at slot i: the slot is free or holds the name. */
  predicate Stops(t: seq<HashNode>, key: string, i: int)
    requires 0 <= i < |t|
  {
    !t[i].used || t[i].name == key
  }

  /** The first of the probes from..|t|-1 that stops, if any. */
  function FirstStop(t: seq<HashNode>, key: string, home: int, from: nat): (r: Option<nat>)
    requires |t| > 0
    ensures r.Some? ==> from <= r.value < |t| && Stops(t, key, ProbeSlot(home, |t|, r.value))
    ensures r.Some? ==> forall k :: from <= k < r.value ==> !Stops(t, key, ProbeSlot(home, |t|, k))
    ensures r.None? ==> forall k :: from <= k < |t| ==> !Stops(t, key, ProbeSlot(home, |t|, k))
    decreases |t| - from
  {
    if from >= |t| then None
    else if Stops(t, key, ProbeSlot(home, |t|, from)) then Some(from)
    else FirstStop(t, key, home, from + 1)
  }

  /** The slot on which the probe loop for `key` ends, or None when it never ends. */
  function Find(t: seq<HashNode>, key: string): (r: Option<nat>)
    requires |t| > 0
    ensures r.Some? ==> r.value < |t| && Stops(t, key, r.value)
  {
    var k := FirstStop(t, key, Hash(key, |t|), 0);
    if k.Some? then Some(ProbeSlot(Hash(key, |t|), |t|, k.value)) else None
  }

  /** A None from Find is a real infinite loop: on an odd table size no probe
      at all ever stops. */
  lemma {:induction false} FindNoneLoopsForever(t: seq<HashNode>, key: string, k: nat)
    requires |t| % 2 == 1 && Find(t, key).None?
    ensures !Stops(t, key, ProbeSlot(Hash(key, |t|), |t|, k))
    decreases k
  {
    var home, m := Hash(key, |t|), |t|;
    if k >= m {
      ProbePeriodic(home, m, k - m);
      FindNoneLoopsForever(t, key, k - m);
    }
  }

  /** The probe loop shared by `probeIndex`, `insert` and `retrieve`: from the
      home slot, `idx = (idx + step) % size; step++` while the slot is used by
      another name. The bound `step <= size` is the model's; past it the C++
      loop would run forever. */
  method ProbeLoop(t: seq<HashNode>, key: string) returns (r: Option<nat>)
    requires |t| > 0
    ensures r == Find(t, key)
  {
    var m := |t|;
    var home := Hash(key, m);
    var idx := home;
    var step := 1;
    assert idx == ProbeSlot(home, m, 0);
    while step <= m && t[idx].used && t[idx].name != key
      invariant 1 <= step <= m + 1
      invariant idx == ProbeSlot(home, m, step - 1)
      invariant FirstStop(t, key, home, 0) == FirstStop(t, key, home, step - 1)
    {
      FirstStopSkip(t, key, home, step - 1);
      ProbeAdvance(home, m, step - 1);
      idx := (idx + step) % m;
      step := step + 1;
    }
    FindAt(t, key, step - 1);
    if step <= m {
      r := Some(idx);
    } else {
      r := None;
    }
  }

  lemma FirstStopSkip(t: seq<HashNode>, key: string, home: int, k: nat)
    requires k < |t| && !Stops(t, key, ProbeSlot(home, |t|, k))
    ensures FirstStop(t, key, home, k) == FirstStop(t, key, home, k + 1)
  {
  }

  /** Where the probe loop leaves off after k retries determines Find. */
  lemma FindAt(t: seq<HashNode>, key: string, k: nat)
    requires 0 < |t| && k <= |t|
    requires FirstStop(t, key, Hash(key, |t|), 0) == FirstStop(t, key, Hash(key, |t|), k)
    requires k < |t| ==> Stops(t, key, ProbeSlot(Hash(key, |t|), |t|, k))
    ensures k < |t| ==> Find(t, key) == Some(ProbeSlot(Hash(key, |t|), |t|, k))
    ensures k == |t| ==> Find(t, key) == None
  {
  }

  /** The probe for n ends on a slot that holds n. */
  predicate Holds(t: seq<HashNode>, n: string)
    requires |t| > 0
  {
    var f := Find(t, n);
    f.Some? && t[f.value].used
  }

  function UsedNames(t: seq<HashNode>): set<string>
  {
    set i | 0 <= i < |t| && t[i].used :: t[i].name
  }

  function UsedSlots(t: seq<HashNode>): set<int>
  {
    set i | 0 <= i < |t| && t[i].used
  }

  /** Every stored name is found again by its own probe. */
  ghost predicate WellFormedSlots(t: seq<HashNode>)
  {
    |t| > 0 && forall n :: n in UsedNames(t) ==> Holds(t, n)
  }

  /** At most one used slot per name. */
  ghost predicate UniqueNames(t: seq<HashNode>)
  {
    forall i, j :: 0 <= i < |t| && 0 <= j < |t| && t[i].used && t[j].used && t[i].name == t[j].name ==> i == j
  }

  /** What `retrieve` reports for each stored name. */
  ghost function Stored(t: seq<HashNode>): (r: map<string, InventoryItem>)
    requires WellFormedSlots(t)
    ensures r.Keys == UsedNames(t)
  {
    map n | n in UsedNames(t) :: t[Find(t, n).value].item
  }

  /** `retrieve(name, item)` on a snapshot: the item found, None for a miss. */
  function Lookup(t: seq<HashNode>, key: string): Outcome<Option<InventoryItem>>
    requires |t| > 0
  {
    var f := Find(t, key);
    if f.None? then Hangs
    else if t[f.value].used then Done(Some(t[f.value].item))
    else Done(None)
  }

  /** On a table with well-formed slots a lookup returns exactly the stored item; a miss
      is a free slot or, for an absent name only, a probe that never ends. */
  lemma LookupStored(t: seq<HashNode>, key: string)
    requires WellFormedSlots(t)
    ensures key in Stored(t) ==> Lookup(t, key) == Done(Some(Stored(t)[key]))
    ensures key !in Stored(t) ==> Lookup(t, key) == (if Find(t, key).None? then Hangs else Done(None))
  {
  }

  /** The tail of `insert` after the load check: probe, then write the slot.
      Returns the new table and whether the slot was free (`itemCount++`). */
  function Place(t: seq<HashNode>, name: string, item: InventoryItem): (r: Option<(seq<HashNode>, bool)>)
    requires |t| > 0
    ensures r.Some? ==> |r.value.0| == |t|
  {
    var f := Find(t, name);
    if f.None? then None
    else Some((t[f.value := HashNode(name, item, true)], !t[f.value].used))
  }

  /** Two tables that agree on where the probe for key stops, up to the first
      stop of the first table, give the same first stop. */
  lemma {:induction false} FirstStopFrame(t: seq<HashNode>, t': seq<HashNode>, key: string, home: int, from: nat, q: nat)
    requires |t| == |t'| > 0 && from <= q
    requires FirstStop(t, key, home, from) == Some(q)
    requires forall k :: from <= k <= q ==>
               Stops(t', key, ProbeSlot(home, |t|, k)) == Stops(t, key, ProbeSlot(home, |t|, k))
    ensures FirstStop(t', key, home, from) == Some(q)
    decreases q - from
  {
    if from < q {
      FirstStopFrame(t, t', key, home, from + 1, q);
    }
  }

  /** After Place the placed name is found on its slot with the new item. */
  lemma PlaceFindsSelf(t: seq<HashNode>, name: string, item: InventoryItem)
    requires |t| > 0 && Place(t, name, item).Some?
    ensures var t' := Place(t, name, item).value.0;
      Find(t', name) == Find(t, name) && Holds(t', name) && t'[Find(t', name).value].item == item
  {
    var t' := Place(t, name, item).value.0;
    var home := Hash(name, |t|);
    var q := FirstStop(t, name, home, 0).value;
    var i := Find(t, name).value;
    forall k | 0 <= k <= q
      ensures Stops(t', name, ProbeSlot(home, |t|, k)) == Stops(t, name, ProbeSlot(home, |t|, k))
    {
    }
    FirstStopFrame(t, t', name, home, 0, q);
  }

  /** Place leaves the probe of every other stored name where it was. */
  lemma PlaceKeepsOther(t: seq<HashNode>, name: string, item: InventoryItem, n: string)
    requires |t| > 0 && Place(t, name, item).Some? && n != name && Holds(t, n)
    ensures var t' := Place(t, name, item).value.0;
      Find(t', n) == Find(t, n) && Holds(t', n) && t'[Find(t', n).value] == t[Find(t, n).value]
  {
    var t' := Place(t, name, item).value.0;
    var i := Find(t, name).value;
    var home := Hash(n, |t|);
    var q := FirstStop(t, n, home, 0).value;
    forall k | 0 <= k <= q
      ensures Stops(t', n, ProbeSlot(home, |t|, k)) == Stops(t, n, ProbeSlot(home, |t|, k))
    {
      var s := ProbeSlot(home, |t|, k);
      if s == i && k < q {
        assert !Stops(t, n, s);
      }
    }
    FirstStopFrame(t, t', n, home, 0, q);
  }

  lemma PlaceNames(t: seq<HashNode>, name: string, item: InventoryItem)
    requires |t| > 0 && Place(t, name, item).Some?
    ensures UsedNames(Place(t, name, item).value.0) == UsedNames(t) + {name}
  {
    var t' := Place(t, name, item).value.0;
    var i := Find(t, name).value;
    forall n | n in UsedNames(t) + {name} ensures n in UsedNames(t') {
      if n != name {
        var j :| 0 <= j < |t| && t[j].used && t[j].name == n;
        if j == i {
          assert false;
        }
        assert t'[j] == t[j];
      } else {
        assert t'[i].used && t'[i].name == name;
      }
    }
    forall n | n in UsedNames(t') ensures n in UsedNames(t) + {name} {
      var j :| 0 <= j < |t'| && t'[j].used && t'[j].name == n;
      if j != i {
        assert t[j] == t'[j];
      }
    }
  }

  /** The slot Place writes was free exactly when the name was not stored. */
  lemma PlaceFresh(t: seq<HashNode>, name: string, item: InventoryItem)
    requires WellFormedSlots(t) && Place(t, name, item).Some?
    ensures Place(t, name, item).value.1 <==> name !in UsedNames(t)
  {
    var i := Find(t, name).value;
    if t[i].used {
      assert t[i].name == name;
    }
  }

  /** Place on a table with well-formed slots stores the item under the name and keeps every
      other stored item; its slots stay well-formed. */
  lemma PlaceStored(t: seq<HashNode>, name: string, item: InventoryItem)
    requires WellFormedSlots(t) && Place(t, name, item).Some?
    ensures WellFormedSlots(Place(t, name, item).value.0)
    ensures Stored(Place(t, name, item).value.0) == Stored(t)[name := item]
  {
    var t' := Place(t, name, item).value.0;
    PlaceNames(t, name, item);
    PlaceFindsSelf(t, name, item);
    forall n | n in UsedNames(t') ensures Holds(t', n) {
      if n != name {
        PlaceKeepsOther(t, name, item, n);
      }
    }
    assert WellFormedSlots(t');
    forall n | n in UsedNames(t')
      ensures Stored(t')[n] == Stored(t)[name := item][n]
    {
      if n != name {
        PlaceKeepsOther(t, name, item, n);
      }
    }
  }

  // ---------------------------------------------------------------------
  // Rehash
  // ---------------------------------------------------------------------

  /** The reinsertion loop of `rehash`: each used slot of `src`, in index
      order, is inserted into `t`; `count` counts the slots found free. */
  function Reinsert(src: seq<HashNode>, from: nat, t: seq<HashNode>, count: int): (r: Outcome<(seq<HashNode>, int)>)
    requires from <= |src| && |t| > 0
    ensures r.Done? ==> |r.value.0| == |t|
    decreases |src| - from
  {
    if from == |src| then Done((t, count))
    else if !src[from].used then Reinsert(src, from + 1, t, count)
    else
      match Place(t, src[from].name, src[from].item)
      case None => Hangs
      case Some((t2, isNew)) => Reinsert(src, from + 1, t2, if isNew then count + 1 else count)
  }

  /** `table.resize(newSize)` on a larger size: the old slots stay where they
      are and the new ones are default (unused) nodes. */
  function Resized(t: seq<HashNode>, newSize: int): (r: seq<HashNode>)
    requires |t| <= newSize
    ensures |r| == newSize && r[..|t|] == t
    ensures forall i :: |t| <= i < newSize ==> r[i] == EmptyNode
  {
    t + seq(newSize - |t|, _ => EmptyNode)
  }

  /** `rehash()` as written: the old entries are reinserted into the resized
      vector, which still holds them at their old indices. */
  function RehashAsWritten(t: seq<HashNode>, newSize: int): Outcome<(seq<HashNode>, int)>
    requires 0 < |t| <= newSize
  {
    Reinsert(t, 0, Resized(t, newSize), 0)
  }

  /** The index of the last used slot below `upto` that holds n, or -1. */
  function LastCopy(t: seq<HashNode>, upto: nat, n: string): (r: int)
    requires upto <= |t|
    ensures -1 <= r < upto
    ensures r >= 0 ==> t[r].used && t[r].name == n
    ensures forall i :: r < i < upto ==> !(t[i].used && t[i].name == n)
  {
    if upto == 0 then -1
    else if t[upto - 1].used && t[upto - 1].name == n then upto - 1
    else LastCopy(t, upto - 1, n)
  }

  function NamesBelow(t: seq<HashNode>, upto: nat): set<string>
    requires upto <= |t|
  {
    set i | 0 <= i < upto && t[i].used :: t[i].name
  }

  /** What a table reports after reinserting all of `t` in index order: for
      each name, the item of its LAST used slot. */
  ghost function LastCopyView(t: seq<HashNode>): (r: map<string, InventoryItem>)
    ensures r.Keys == UsedNames(t)
  {
    map n | n in UsedNames(t) :: t[LastCopy(t, |t|, n)].item
  }

  lemma LastCopyFound(t: seq<HashNode>, upto: nat, n: string)
    requires upto <= |t| && n in NamesBelow(t, upto)
    ensures LastCopy(t, upto, n) >= 0
  {
    var i :| 0 <= i < upto && t[i].used && t[i].name == n;
  }

  /** The state of the reinsertion loop after the slots below `from`. */
  ghost predicate ReinsertInv(src: seq<HashNode>, from: nat, t: seq<HashNode>)
    requires from <= |src|
  {
    && |t| > 0
    && UsedNames(t) <= UsedNames(src)
    && NamesBelow(src, from) <= UsedNames(t)
    && forall n :: n in NamesBelow(src, from) ==>
         Holds(t, n) && LastCopy(src, from, n) >= 0 && t[Find(t, n).value].item == src[LastCopy(src, from, n)].item
  }

  lemma NamesBelowStep(src: seq<HashNode>, from: nat)
    requires from < |src|
    ensures NamesBelow(src, from + 1) ==
              NamesBelow(src, from) + (if src[from].used then {src[from].name} else {})
  {
  }

  /** One step of the reinsertion loop keeps its invariant. */
  lemma ReinsertStep(src: seq<HashNode>, from: nat, t: seq<HashNode>)
    requires from < |src| && ReinsertInv(src, from, t)
    requires src[from].used ==> Place(t, src[from].name, src[from].item).Some?
    ensures ReinsertInv(src, from + 1, if src[from].used then Place(t, src[from].name, src[from].item).value.0 else t)
  {
    NamesBelowStep(src, from);
    if src[from].used {
      var name, item := src[from].name, src[from].item;
      var t' := Place(t, name, item).value.0;
      PlaceNames(t, name, item);
      PlaceFindsSelf(t, name, item);
      assert name in UsedNames(src);
      forall n | n in NamesBelow(src, from + 1)
        ensures Holds(t', n) && LastCopy(src, from + 1, n) >= 0
        ensures t'[Find(t', n).value].item == src[LastCopy(src, from + 1, n)].item
      {
        if n != name {
          PlaceKeepsOther(t, name, item, n);
        }
      }
    } else {
      forall n | n in NamesBelow(src, from + 1)
        ensures LastCopy(src, from + 1, n) == LastCopy(src, from, n)
      {
      }
    }
  }

  /** Once every slot of `src` is reinserted, the invariant says it all. */
  lemma ReinsertFinished(src: seq<HashNode>, t: seq<HashNode>)
    requires ReinsertInv(src, |src|, t)
    ensures WellFormedSlots(t) && UsedNames(t) == UsedNames(src) && Stored(t) == LastCopyView(src)
  {
    assert NamesBelow(src, |src|) == UsedNames(src);
    assert WellFormedSlots(t) by {
      forall n | n in UsedNames(t) ensures Holds(t, n) { }
    }
    forall n | n in UsedNames(t) ensures Stored(t)[n] == LastCopyView(src)[n] { }
  }

  /** Whatever table the reinsertion starts from, if it ends, every name of
      `src` is found, no other name is stored, and each name reports the item
      of its last slot in `src`. */
  lemma {:induction false} ReinsertView(src: seq<HashNode>, from: nat, t: seq<HashNode>, count: int)
    requires from <= |src| && ReinsertInv(src, from, t)
    requires Reinsert(src, from, t, count).Done?
    ensures var t' := Reinsert(src, from, t, count).value.0;
      WellFormedSlots(t') && UsedNames(t') == UsedNames(src) && Stored(t') == LastCopyView(src)
    decreases |src| - from
  {
    if from == |src| {
      ReinsertFinished(src, t);
    } else {
      ReinsertStep(src, from, t);
      if src[from].used {
        var p := Place(t, src[from].name, src[from].item).value;
        ReinsertView(src, from + 1, p.0, if p.1 then count + 1 else count);
      } else {
        ReinsertView(src, from + 1, t, count);
      }
    }
  }

  /** The resized table starts the reinsertion with its invariant. */
  lemma ResizedStarts(t: seq<HashNode>, newSize: int)
    requires 0 < |t| <= newSize
    ensures ReinsertInv(t, 0, Resized(t, newSize))
  {
    var r := Resized(t, newSize);
    forall n | n in UsedNames(r) ensures n in UsedNames(t) {
      var i :| 0 <= i < |r| && r[i].used && r[i].name == n;
      assert i < |t| && r[i] == t[i];
    }
  }

  /** A fresh table of unused slots starts the reinsertion with its invariant. */
  lemma FreshStarts(t: seq<HashNode>, newSize: int)
    requires newSize > 0
    ensures ReinsertInv(t, 0, seq(newSize, _ => EmptyNode))
  {
  }

  /** `rehash()` as written, when it returns, keeps every name findable but
      reports for each name the item of its last slot in the old table. */
  lemma RehashAsWrittenView(t: seq<HashNode>, newSize: int)
    requires 0 < |t| <= newSize && RehashAsWritten(t, newSize).Done?
    ensures var t' := RehashAsWritten(t, newSize).value.0;
      WellFormedSlots(t') && UsedNames(t') == UsedNames(t) && Stored(t') == LastCopyView(t)
  {
    ResizedStarts(t, newSize);
    ReinsertView(t, 0, Resized(t, newSize), 0);
  }

  /** With one slot per name the last slot is the one the probe finds, so a
      table without stale copies reports the same items either way. */
  lemma UniqueLastCopy(t: seq<HashNode>)
    requires WellFormedSlots(t) && UniqueNames(t)
    ensures LastCopyView(t) == Stored(t)
  {
    forall n | n in UsedNames(t) ensures LastCopyView(t)[n] == Stored(t)[n] {
      UniqueLastCopyAt(t, n);
    }
  }

  lemma UniqueLastCopyAt(t: seq<HashNode>, n: string)
    requires WellFormedSlots(t) && UniqueNames(t) && n in UsedNames(t)
    ensures LastCopy(t, |t|, n) == Find(t, n).value
  {
    assert n in NamesBelow(t, |t|);
    LastCopyFound(t, |t|, n);
    assert Holds(t, n);
  }

  // ---------------------------------------------------------------------
  // The load check and the next size
  // ---------------------------------------------------------------------

  /** `(double)itemCount / currentSize >= 0.7`, exactly: on a prime size the
      quotient is never 0.7 itself, so the double comparison cannot round the
      wrong way. */
  predicate NeedsRehash(count: int, size: int)
  {
    10 * count >= 7 * size
  }

  lemma LeastPrimeExists(n: int, q: int) returns (r: int)
    requires q >= n && IsPrime(q)
    ensures r >= n && IsPrime(r) && forall m :: n <= m < r ==> !IsPrime(m)
    decreases q
  {
    if exists m :: n <= m < q && IsPrime(m) {
      var m :| n <= m < q && IsPrime(m);
      r := LeastPrimeExists(n, m);
    } else {
      r := q;
    }
  }

  lemma LeastPrimeFromExists(n: int)
    ensures exists r :: r >= n && IsPrime(r) && forall m :: n <= m < r ==> !IsPrime(m)
  {
    var q := PrimeAtLeast(n);
    var r := LeastPrimeExists(n, q);
  }

  /** `nextPrime(n)` for n >= 2: the least prime not below n. */
  ghost function LeastPrimeFrom(n: int): (r: int)
    ensures r >= n && IsPrime(r) && forall m :: n <= m < r ==> !IsPrime(m)
  {
    LeastPrimeFromExists(n);
    var r :| r >= n && IsPrime(r) && forall m :: n <= m < r ==> !IsPrime(m);
    r
  }

  /** Two least primes from the same bound are the same. */
  lemma LeastPrimeUnique(n: int, a: int, b: int)
    requires a >= n && IsPrime(a) && forall m :: n <= m < a ==> !IsPrime(m)
    requires b >= n && IsPrime(b) && forall m :: n <= m < b ==> !IsPrime(m)
    ensures a == b
  {
  }

  /** `insert(name, item)` as written: the load check on the count before the
      insert, the as-written rehash to the next prime at or above twice the
      size, then the probe and the write. */
  ghost function InsertAsWritten(t: seq<HashNode>, count: int, name: string, item: InventoryItem): Outcome<(seq<HashNode>, int)>
    requires |t| > 0
  {
    var grown := if NeedsRehash(count, |t|) then RehashAsWritten(t, LeastPrimeFrom(2 * |t|)) else Done((t, count));
    match grown
    case Hangs => Hangs
    case Done((t1, c1)) =>
      match Place(t1, name, item)
      case None => Hangs
      case Some((t2, isNew)) => Done((t2, if isNew then c1 + 1 else c1))
  }

  /** `insert` once the load check is over: what it does is what `Place`
      does to the table it left. */
  lemma InsertAfterGrowth(t: seq<HashNode>, count: int, name: string, item: InventoryItem, t1: seq<HashNode>, c1: int)
    requires |t| > 0 && |t1| > 0
    requires (if NeedsRehash(count, |t|) then RehashAsWritten(t, LeastPrimeFrom(2 * |t|)) else Done((t, count))) == Done((t1, c1))
    ensures Place(t1, name, item).None? ==> InsertAsWritten(t, count, name, item) == Hangs
    ensures Place(t1, name, item).Some? ==>
              InsertAsWritten(t, count, name, item) ==
              Done((Place(t1, name, item).value.0, if Place(t1, name, item).value.1 then c1 + 1 else c1))
  {
  }

  lemma FiftyThreeIsPrime()
    ensures IsPrime(53)
  {
    forall d | 2 <= d < 8 ensures !Divides(d, 53) {
      ModZeroIsDivides(d, 53);
    }
    TrialDivisionSuffices(53, 8);
  }

  /** The used items in slot order (`getAllItems`). */
  function UsedItems(t: seq<HashNode>): seq<InventoryItem>
  {
    if t == [] then []
    else UsedItems(t[..|t| - 1]) + (if t[|t| - 1].used then [t[|t| - 1].item] else [])
  }

  /** Every used slot's item is listed. */
  lemma {:induction false} UsedItemsHas(t: seq<HashNode>, i: int)
    requires 0 <= i < |t| && t[i].used
    ensures t[i].item in UsedItems(t)
  {
    if i < |t| - 1 {
      UsedItemsHas(t[..|t| - 1], i);
    }
  }

  /** The resizable ingredient table, as the C++ class runs it. */
  class DynamicInventoryTable {
    var table: seq<HashNode>
    var currentSize: int
    var itemCount: int

    ghost predicate Valid()
      reads this
    {
      |table| == currentSize && currentSize >= InitialSize && IsPrime(currentSize) && WellFormedSlots(table)
    }

    /** What `retrieve` returns for each name. */
    ghost function Contents(): map<string, InventoryItem>
      reads this
      requires Valid()
    {
      Stored(table)
    }

    constructor ()
      ensures Valid() && Contents() == map[]
      ensures currentSize == InitialSize && itemCount == 0
    {
      table := seq(InitialSize, _ => EmptyNode);
      currentSize := InitialSize;
      itemCount := 0;
      FiftyThreeIsPrime();
    }

    /** The part of `insert` after the load check: the probe loop, `itemCount++`
        on a free slot, and the write. False: the probe loop never ends. */
    method PlaceItem(name: string, item: InventoryItem) returns (done: bool)
      requires |table| == currentSize > 0
      modifies this
      ensures currentSize == old(currentSize)
      ensures Place(old(table), name, item).None? ==> !done
      ensures Place(old(table), name, item).Some? ==>
                done && table == Place(old(table), name, item).value.0 &&
                itemCount == old(itemCount) + (if Place(old(table), name, item).value.1 then 1 else 0)
    {
      var idx := ProbeLoop(table, name);
      if idx.None? {
        return false;
      }
      if !table[idx.value].used {
        itemCount := itemCount + 1;
      }
      table := table[idx.value := HashNode(name, item, true)];
      done := true;
    }

    /** `rehash()`: the size becomes `nextPrime(2 * size)`, `table.resize` keeps
        the old slots in place, the count restarts at 0, and every used slot of
        the old table is inserted again in index order. */
    method Rehash() returns (done: bool)
      requires Valid()
      modifies this
      ensures currentSize == LeastPrimeFrom(2 * old(currentSize))
      ensures RehashAsWritten(old(table), currentSize) == if done then Done((table, itemCount)) else Hangs
      ensures done ==> Valid() && Contents() == LastCopyView(old(table))
    {
      var oldTable := table;
      var oldSize := currentSize;
      var newSize := NextPrime(currentSize * 2);
      LeastPrimeUnique(2 * oldSize, newSize, LeastPrimeFrom(2 * oldSize));
      currentSize := newSize;
      table := Resized(table, currentSize);
      itemCount := 0;
      var i := 0;
      while i < oldSize
        invariant 0 <= i <= oldSize == |oldTable|
        invariant currentSize == newSize >= 2 * oldSize
        invariant |table| == currentSize
        invariant 0 <= itemCount <= i
        invariant RehashAsWritten(oldTable, currentSize) == Reinsert(oldTable, i, table, itemCount)
      {
        if oldTable[i].used {
          // `insert` again: its own load check cannot fire while itemCount <= i < oldSize
          assert !NeedsRehash(itemCount, currentSize);
          var ok := PlaceItem(oldTable[i].name, oldTable[i].item);
          if !ok {
            return false;
          }
        }
        i := i + 1;
      }
      RehashAsWrittenView(oldTable, currentSize);
      done := true;
    }

    /** The load check of `insert`: `rehash()` when the load factor has
        reached 0.7. False: the rehash never returns. */
    method GrowIfLoaded() returns (ok: bool)
      requires Valid()
      modifies this
      ensures (if NeedsRehash(old(itemCount), old(currentSize))
               then RehashAsWritten(old(table), LeastPrimeFrom(2 * old(currentSize)))
               else Done((old(table), old(itemCount)))) == if ok then Done((table, itemCount)) else Hangs
      ensures currentSize == if NeedsRehash(old(itemCount), old(currentSize)) then LeastPrimeFrom(2 * old(currentSize)) else old(currentSize)
      ensures ok ==> Valid()
      ensures ok ==> Contents() == if NeedsRehash(old(itemCount), old(currentSize)) then LastCopyView(old(table)) else old(Contents())
      ensures !NeedsRehash(old(itemCount), old(currentSize)) ==> ok && table == old(table) && itemCount == old(itemCount)
    {
      ok := true;
      if NeedsRehash(itemCount, currentSize) {
        ok := Rehash();
      }
    }

    /** `insert(name, item)`. False: the call never returns. */
    method Insert(name: string, item: InventoryItem) returns (done: bool)
      requires Valid()
      modifies this
      ensures InsertAsWritten(old(table), old(itemCount), name, item) == if done then Done((table, itemCount)) else Hangs
      ensures currentSize == if NeedsRehash(old(itemCount), old(currentSize)) then LeastPrimeFrom(2 * old(currentSize)) else old(currentSize)
      ensures done ==> Valid()
      ensures done ==>
                Contents() == (if NeedsRehash(old(itemCount), old(currentSize)) then LastCopyView(old(table)) else old(Contents()))[name := item]
      ensures done && !NeedsRehash(old(itemCount), old(currentSize)) ==>
                itemCount == old(itemCount) + if name in old(Contents()) then 0 else 1
    {
      ghost var t0, c0 := table, itemCount;
      var ok := GrowIfLoaded();
      if !ok {
        return false;
      }
      ghost var before, counted := table, itemCount;
      done := PlaceItem(name, item);
      InsertAfterGrowth(t0, c0, name, item, before, counted);
      if done {
        PlaceStored(before, name, item);
        PlaceFresh(before, name, item);
      }
    }

    /** `retrieve(name, item)`: Done(Some(item)) for `true`, Done(None) for
        `false`; Hangs when the probe loop never ends. */
    method Retrieve(name: string) returns (r: Outcome<Option<InventoryItem>>)
      requires Valid()
      ensures r == Lookup(table, name)
      ensures name in Contents() ==> r == Done(Some(Contents()[name]))
      ensures name !in Contents() ==> r == if Find(table, name).None? then Hangs else Done(None)
    {
      var idx := ProbeLoop(table, name);
      if idx.None? {
        r := Hangs;
      } else if table[idx.value].used && table[idx.value].name == name {
        r := Done(Some(table[idx.value].item));
      } else {
        r := Done(None);
      }
      LookupStored(table, name);
    }

    /** `getAllItems()`: the item of every used slot, in slot order. */
    method GetAllItems() returns (items: seq<InventoryItem>)
      requires Valid()
      ensures items == UsedItems(table)
      ensures |items| == |UsedSlots(table)|
    {
      items := [];
      var i := 0;
      while i < currentSize
        invariant 0 <= i <= currentSize
        invariant items == UsedItems(table[..i])
      {
        assert table[..i + 1][..i] == table[..i];
        if table[i].used {
          items := items + [table[i].item];
        }
        i := i + 1;
      }
      assert table[..currentSize] == table;
      UsedItemsCount(table);
    }

    /** `getSize()`. */
    method GetSize() returns (n: int)
      ensures n == itemCount
    {
      n := itemCount;
    }

    /** `getTableSize()`. */
    method GetTableSize() returns (n: int)
      ensures n == currentSize
    {
      n := currentSize;
    }
  }

  lemma {:induction false} UsedItemsCount(t: seq<HashNode>)
    ensures |UsedItems(t)| == |UsedSlots(t)|
  {
    if t != [] {
      var p := t[..|t| - 1];
      UsedItemsCount(p);
      assert UsedSlots(t) == UsedSlots(p) + (if t[|t| - 1].used then {|t| - 1} else {});
    }
  }

  // ---------------------------------------------------------------------
  // The fixed 101-slot table
  // ---------------------------------------------------------------------

  /** The fixed table's parallel arrays `inventoryTable` and `inventoryUsed`
      seen as slots; an item is stored under its own name. */
  function FixedSlots(inv: seq<InventoryItem>, used: seq<bool>): (r: seq<HashNode>)
    requires |inv| == |used|
    ensures |r| == |inv|
  {
    seq(|inv|, i requires 0 <= i < |inv| => HashNode(inv[i].name, inv[i], used[i]))
  }

  /** `probeIndex(key)` on the fixed table. */
  method ProbeIndex(inventoryTable: array<InventoryItem>, inventoryUsed: array<bool>, key: string) returns (r: Option<nat>)
    requires inventoryTable.Length == HashSize && inventoryUsed.Length == HashSize
    ensures r == Find(FixedSlots(inventoryTable[..], inventoryUsed[..]), key)
  {
    ghost var t := FixedSlots(inventoryTable[..], inventoryUsed[..]);
    var idx := Hash(key, HashSize);
    ghost var home := idx;
    var step := 1;
    assert idx == ProbeSlot(home, HashSize, 0);
    while step <= HashSize && inventoryUsed[idx] && inventoryTable[idx].name != key
      invariant 1 <= step <= HashSize + 1
      invariant idx == ProbeSlot(home, HashSize, step - 1)
      invariant FirstStop(t, key, home, 0) == FirstStop(t, key, home, step - 1)
    {
      assert t[idx] == HashNode(inventoryTable[idx].name, inventoryTable[idx], inventoryUsed[idx]);
      FirstStopSkip(t, key, home, step - 1);
      ProbeAdvance(home, HashSize, step - 1);
      idx := (idx + step) % HashSize;
      step := step + 1;
    }
    FindAt(t, key, step - 1);
    if step <= HashSize {
      r := Some(idx);
    } else {
      r := None;
    }
  }

  /** The table writes of `addInventoryItem`: `idx = probeIndex(item.name);
      inventoryTable[idx] = item; inventoryUsed[idx] = true`. */
  method AddInventoryItem(inventoryTable: array<InventoryItem>, inventoryUsed: array<bool>, item: InventoryItem)
    returns (r: Outcome<nat>)
    requires inventoryTable.Length == HashSize && inventoryUsed.Length == HashSize
    modifies inventoryTable, inventoryUsed
    ensures var before := FixedSlots(old(inventoryTable[..]), old(inventoryUsed[..]));
      var after := FixedSlots(inventoryTable[..], inventoryUsed[..]);
      && (r.Hangs? <==> Place(before, item.name, item).None?)
      && (r.Done? ==> after == Place(before, item.name, item).value.0)
      && (r.Done? && WellFormedSlots(before) ==> WellFormedSlots(after) && Stored(after) == Stored(before)[item.name := item])
  {
    ghost var before := FixedSlots(inventoryTable[..], inventoryUsed[..]);
    var idx := ProbeIndex(inventoryTable, inventoryUsed, item.name);
    if idx.None? {
      return Hangs;
    }
    inventoryTable[idx.value] := item;
    inventoryUsed[idx.value] := true;
    r := Done(idx.value);
    ghost var after := FixedSlots(inventoryTable[..], inventoryUsed[..]);
    assert after == Place(before, item.name, item).value.0;
    if WellFormedSlots(before) {
      PlaceStored(before, item.name, item);
    }
  }

  /** The lookup of `viewInventoryItem` and `updateInventoryItem`: the slot of
      the named item, or None for "not found". */
  method FindInventoryItem(inventoryTable: array<InventoryItem>, inventoryUsed: array<bool>, key: string)
    returns (r: Outcome<Option<nat>>)
    requires inventoryTable.Length == HashSize && inventoryUsed.Length == HashSize
    ensures var t := FixedSlots(inventoryTable[..], inventoryUsed[..]);
      && (r.Hangs? <==> Find(t, key).None?)
      && (r.Done? && r.value.Some? ==> r.value.value < HashSize && inventoryUsed[r.value.value] && inventoryTable[r.value.value].name == key)
      && (WellFormedSlots(t) && r.Done? ==> (r.value.None? <==> key !in Stored(t)))
      && (WellFormedSlots(t) && r.Done? && r.value.Some? ==> inventoryTable[r.value.value] == Stored(t)[key])
  {
    ghost var t := FixedSlots(inventoryTable[..], inventoryUsed[..]);
    var idx := ProbeIndex(inventoryTable, inventoryUsed, key);
    if idx.None? {
      return Hangs;
    }
    if !inventoryUsed[idx.value] || inventoryTable[idx.value].name != key {
      r := Done(None);
    } else {
      r := Done(Some(idx.value));
    }
    if WellFormedSlots(t) {
      LookupStored(t, key);
    }
  }
}
