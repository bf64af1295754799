/**
 Open-addressed hash table with linear probing and tombstones.
 The invariant and the lemmas about it are for any hash function `home` into the table.
 */
module HTable {

  type Key = x: int | 0 <= x < 0x1_0000_0000

  datatype State = Empty | Occupied | Deleted

  datatype Entry = Entry(key: Key, value: int, state: State)

  datatype Status = OK | ErrFull | ErrNotFound | ErrParam

  // ----- FNV-1a

  /** Byte i of the key, lowest first. */
  function KeyByte(k: Key, i: nat): bv32
    requires i < 4
  {
    var w := k as bv32;
    (if i == 0 then w else if i == 1 then w >> 8 else if i == 2 then w >> 16 else w >> 24) & 0xFF
  }

  /** A hash with one more byte mixed in. */
  function Mix(h: bv32, b: bv32): bv32 {
    (h ^ b) * 16777619
  }

  function HashBytes(k: Key, n: nat): bv32
    requires n <= 4
  {
    if n == 0 then 2166136261 else Mix(HashBytes(k, n - 1), KeyByte(k, n - 1))
  }

  function Hash(k: Key, capacity: nat): (h: nat)
    requires capacity > 0
    ensures h < capacity
  {
    HashBytes(k, 4) as nat % capacity
  }

  /** A published value of the hash: that of the bytes of "abcd". */
  lemma KnownHash()
    ensures HashBytes(0x6463_6261, 4) == 0xCE34_79BD
  {
    hide Mix, KeyByte;
    var k: Key := 0x6463_6261;
    KnownBytes();
    KnownMixes();
    assert HashBytes(k, 1) == Mix(2166136261, 0x61);
    assert HashBytes(k, 2) == Mix(HashBytes(k, 1), 0x62);
    assert HashBytes(k, 3) == Mix(HashBytes(k, 2), 0x63);
  }

  lemma KnownBytes()
    ensures KeyByte(0x6463_6261, 0) == 0x61 && KeyByte(0x6463_6261, 1) == 0x62
    ensures KeyByte(0x6463_6261, 2) == 0x63 && KeyByte(0x6463_6261, 3) == 0x64
  {}

  lemma KnownMixes()
    ensures Mix(2166136261, 0x61) == 0xE40C_292C && Mix(0xE40C_292C, 0x62) == 0x4D25_05CA
    ensures Mix(0x4D25_05CA, 0x63) == 0x1A47_E90B && Mix(0x1A47_E90B, 0x64) == 0xCE34_79BD
  {}

  method HashFnv1a(k: Key, capacity: nat) returns (r: nat)
    requires capacity > 0
    ensures r == Hash(k, capacity)
  {
    hide Mix, KeyByte;
    var h: bv32 := 2166136261;
    for i := 0 to 4
      invariant h == HashBytes(k, i)
    {
      h := Mix(h, KeyByte(k, i));
    }
    r := h as nat % capacity;
  }

  // ----- probing

  /** The slot looked at after d steps. */
  function Slot(start: nat, d: nat, capacity: nat): (i: nat)
    requires start < capacity && d <= capacity
    ensures i < capacity
  {
    if start + d < capacity then start + d else start + d - capacity
  }

  /** The number of steps after which slot i is looked at. */
  function Gap(start: nat, i: nat, capacity: nat): (d: nat)
    requires start < capacity && i < capacity
    ensures d < capacity && Slot(start, d, capacity) == i
  {
    if start <= i then i - start else i + capacity - start
  }

  /** One step of the probe; it is back at the start exactly after a full round. */
  lemma Advance(start: nat, d: nat, capacity: nat)
    requires start < capacity && d < capacity
    ensures (Slot(start, d, capacity) + 1) % capacity == Slot(start, d + 1, capacity)
    ensures Slot(start, d + 1, capacity) == start <==> d + 1 == capacity
    ensures Gap(start, Slot(start, d, capacity), capacity) == d
  {
    var i := Slot(start, d, capacity);
    if i + 1 == capacity {
      assert (i + 1) % capacity == 0;
    } else {
      assert (i + 1) % capacity == i + 1;
    }
  }

  /** A hash function into a table of n slots. */
  ghost predicate InRange(home: Key -> nat, n: nat) {
    n > 0 && forall k :: home(k) < n
  }

  /** FNV-1a is one. */
  ghost function Home(capacity: nat): (home: Key -> nat)
    requires capacity > 0
    ensures InRange(home, capacity)
  {
    (k: Key) => Hash(k, capacity)
  }

  lemma HomeAt(k: Key, capacity: nat)
    requires capacity > 0
    ensures Home(capacity)(k) == Hash(k, capacity)
  {}

  ghost predicate Holds(e: Entry, k: Key) {
    e.state == Occupied && e.key == k
  }

  /** None of the first d slots probed for k is empty or holds k. */
  ghost predicate Passed(home: Key -> nat, es: seq<Entry>, k: Key, d: nat)
    requires InRange(home, |es|) && d <= |es|
  {
    forall c: nat :: c < d ==> var e := es[Slot(home(k), c, |es|)]; e.state != Empty && !Holds(e, k)
  }

  ghost function Live(es: seq<Entry>): nat {
    if es == [] then 0 else Live(es[..|es| - 1]) + if es[|es| - 1].state == Occupied then 1 else 0
  }

  /**
   The table's invariant. `slots` says where each key is; every live key is there exactly once, and no slot
   between a live key's hash and its slot is empty.
   */
  ghost predicate Table(home: Key -> nat, es: seq<Entry>, slots: map<Key, int>) {
    && InRange(home, |es|)
    && (forall k :: k in slots ==> 0 <= slots[k] < |es| && Holds(es[slots[k]], k))
    && (forall i: nat :: i < |es| && es[i].state == Occupied ==> es[i].key in slots && slots[es[i].key] == i)
    && (forall k :: k in slots ==> Reachable(home, es, k, slots[k]))
    && |slots| == Live(es)
  }

  /** A probe for k comes to slot i without meeting an empty slot. */
  ghost predicate Reachable(home: Key -> nat, es: seq<Entry>, k: Key, i: int)
    requires InRange(home, |es|)
  {
    && 0 <= i < |es|
    && forall d: nat :: d < Gap(home(k), i, |es|) ==> es[Slot(home(k), d, |es|)].state != Empty
  }

  ghost function Mapped(es: seq<Entry>, slots: map<Key, int>): map<Key, int>
    requires forall k :: k in slots ==> 0 <= slots[k] < |es|
  {
    map k | k in slots :: es[slots[k]].value
  }

  /** A probe that stops at an empty slot, or comes back to its start, proves the key absent. */
  lemma ProbeProvesAbsent(home: Key -> nat, es: seq<Entry>, slots: map<Key, int>, k: Key, d: nat)
    requires Table(home, es, slots) && d <= |es| && Passed(home, es, k, d)
    requires d == |es| || es[Slot(home(k), d, |es|)].state == Empty
    ensures k !in slots
  {
    if k in slots {
      PassedEnds(home, es, k, d, slots[k]);
    }
  }

  /** Such a probe has passed every slot from which k could be reached. */
  lemma PassedEnds(home: Key -> nat, es: seq<Entry>, k: Key, d: nat, i: int)
    requires InRange(home, |es|) && d <= |es| && Passed(home, es, k, d) && Reachable(home, es, k, i)
    requires d == |es| || es[Slot(home(k), d, |es|)].state == Empty
    ensures !Holds(es[i], k)
  {
    var g := Gap(home(k), i, |es|);
    assert es[Slot(home(k), g, |es|)] == es[i];
  }

  lemma {:induction false} LiveUpdate(es: seq<Entry>, i: nat, e: Entry)
    requires i < |es|
    ensures Live(es[i := e])
            == Live(es) + (if e.state == Occupied then 1 else 0) - if es[i].state == Occupied then 1 else 0
  {
    var n := |es| - 1;
    if i < n {
      LiveUpdate(es[..n], i, e);
      assert es[i := e][..n] == es[..n][i := e];
    } else {
      assert es[i := e][..n] == es[..n];
    }
  }

  /** The live count reaches the capacity exactly when every slot is occupied. */
  lemma {:induction false} LiveAll(es: seq<Entry>)
    ensures Live(es) <= |es|
    ensures Live(es) == |es| <==> forall i :: 0 <= i < |es| ==> es[i].state == Occupied
  {
    if es != [] {
      var n := |es| - 1;
      LiveAll(es[..n]);
      if forall i :: 0 <= i < |es| ==> es[i].state == Occupied {
        assert forall i :: 0 <= i < n ==> es[..n][i].state == Occupied;
      } else if es[n].state == Occupied {
        var i :| 0 <= i < |es| && es[i].state != Occupied;
        assert es[..n][i].state != Occupied;
      }
    }
  }

  lemma NotFull(es: seq<Entry>, i: nat)
    requires i < |es| && es[i].state != Occupied
    ensures Live(es) < |es|
  {
    LiveAll(es);
  }

  lemma {:induction false} LiveNone(es: seq<Entry>)
    requires forall i :: 0 <= i < |es| ==> es[i].state == Empty
    ensures Live(es) == 0
  {
    if es != [] {
      LiveNone(es[..|es| - 1]);
    }
  }

  /** Filling a free slot that a probe for an absent key has come to. */
  lemma InsertKeeps(home: Key -> nat, es: seq<Entry>, slots: map<Key, int>, k: Key, v: int, d: nat)
    requires Table(home, es, slots) && d < |es| && k !in slots && Passed(home, es, k, d)
    requires es[Slot(home(k), d, |es|)].state != Occupied
    ensures var i := Slot(home(k), d, |es|);
            && Table(home, es[i := Entry(k, v, Occupied)], slots[k := i])
            && Mapped(es[i := Entry(k, v, Occupied)], slots[k := i]) == Mapped(es, slots)[k := v]
  {
    hide Live;
    var i := Slot(home(k), d, |es|);
    var es', slots' := es[i := Entry(k, v, Occupied)], slots[k := i];
    Advance(home(k), d, |es|);
    LiveUpdate(es, i, Entry(k, v, Occupied));
    forall q | q in slots'
      ensures Reachable(home, es', q, slots'[q])
    {
      if q != k {
        assert Reachable(home, es, q, slots[q]);
      }
    }
  }

  lemma UpdateKeeps(home: Key -> nat, es: seq<Entry>, slots: map<Key, int>, k: Key, v: int)
    requires Table(home, es, slots) && k in slots
    ensures var i := slots[k];
            && Table(home, es[i := es[i].(value := v)], slots)
            && Mapped(es[i := es[i].(value := v)], slots) == Mapped(es, slots)[k := v]
  {
    hide Live;
    var es' := es[slots[k] := es[slots[k]].(value := v)];
    LiveUpdate(es, slots[k], es[slots[k]].(value := v));
    forall q | q in slots
      ensures Reachable(home, es', q, slots[q])
    {
      assert Reachable(home, es, q, slots[q]);
    }
  }

  /** A tombstone keeps the probes of other keys going. */
  lemma RemoveKeeps(home: Key -> nat, es: seq<Entry>, slots: map<Key, int>, k: Key)
    requires Table(home, es, slots) && k in slots
    ensures var es' := es[slots[k] := es[slots[k]].(state := Deleted)];
            Table(home, es', slots - {k}) && Mapped(es', slots - {k}) == Mapped(es, slots) - {k}
  {
    hide Live;
    var es' := es[slots[k] := es[slots[k]].(state := Deleted)];
    LiveUpdate(es, slots[k], es[slots[k]].(state := Deleted));
    assert (slots - {k})[k := slots[k]] == slots;
    forall q | q in slots - {k}
      ensures Reachable(home, es', q, slots[q])
    {
      assert Reachable(home, es, q, slots[q]);
    }
  }

  lemma SameSize(es: seq<Entry>, slots: map<Key, int>)
    requires forall k :: k in slots ==> 0 <= slots[k] < |es|
    ensures |Mapped(es, slots)| == |slots|
  {
    assert Mapped(es, slots).Keys == slots.Keys;
  }

  // ----- the steps of a probe

  /** The first d slots probed for k are all occupied. */
  ghost predicate AllLive(home: Key -> nat, es: seq<Entry>, k: Key, d: nat)
    requires InRange(home, |es|) && d <= |es|
  {
    forall c: nat :: c < d ==> es[Slot(home(k), c, |es|)].state == Occupied
  }

  lemma ProbeStart(home: Key -> nat, es: seq<Entry>, k: Key)
    requires InRange(home, |es|)
    ensures Slot(home(k), 0, |es|) == home(k) && Passed(home, es, k, 0) && AllLive(home, es, k, 0)
  {}

  lemma ProbeNext(home: Key -> nat, es: seq<Entry>, k: Key, d: nat)
    requires InRange(home, |es|) && d < |es| && Passed(home, es, k, d)
    requires var e := es[Slot(home(k), d, |es|)]; e.state != Empty && !Holds(e, k)
    ensures Passed(home, es, k, d + 1)
    ensures AllLive(home, es, k, d) && es[Slot(home(k), d, |es|)].state == Occupied ==> AllLive(home, es, k, d + 1)
  {
    hide Slot;
  }

  lemma PassedEarlier(home: Key -> nat, es: seq<Entry>, k: Key, c: nat, d: nat)
    requires InRange(home, |es|) && c <= d <= |es| && Passed(home, es, k, d)
    ensures Passed(home, es, k, c)
  {
    hide Slot;
  }

  /** A round without a free slot has seen every slot. */
  lemma AllLiveRound(home: Key -> nat, es: seq<Entry>, k: Key)
    requires InRange(home, |es|) && AllLive(home, es, k, |es|)
    ensures forall i :: 0 <= i < |es| ==> es[i].state == Occupied
    ensures Live(es) == |es|
  {
    hide Slot, Live;
    forall i | 0 <= i < |es|
      ensures es[i].state == Occupied
    {
      var d := Gap(home(k), i, |es|);
      assert Slot(home(k), d, |es|) == i;
    }
    LiveAll(es);
  }

  lemma TableParts(home: Key -> nat, es: seq<Entry>, slots: map<Key, int>)
    requires Table(home, es, slots)
    ensures forall k :: k in slots ==> 0 <= slots[k] < |es|
    ensures |es| > 0 && |slots| == Live(es) && |Mapped(es, slots)| == |slots|
    ensures Mapped(es, slots).Keys == slots.Keys
    ensures forall k :: k in slots ==> Mapped(es, slots)[k] == es[slots[k]].value
  {
    SameSize(es, slots);
  }

  lemma TableHolds(home: Key -> nat, es: seq<Entry>, slots: map<Key, int>, k: Key, i: nat)
    requires Table(home, es, slots) && i < |es| && Holds(es[i], k)
    ensures k in slots && slots[k] == i
  {}

  class HashTable {
    const entries: array<Entry>
    var capacity: nat
    var count: nat
    ghost var slots: map<Key, int>

    /** A table before it is initialised; its storage holds anything. */
    constructor (maxSize: nat)
      ensures entries.Length == maxSize && fresh(entries)
    {
      entries := new Entry[maxSize](_ => Entry(0, 0, Empty));
    }

    ghost predicate Valid()
      reads this, entries
    {
      0 < capacity <= entries.Length && Table(Home(capacity), entries[..capacity], slots) && count == |slots|
    }

    ghost function Contents(): map<Key, int>
      requires Valid()
      reads this, entries
    {
      Mapped(entries[..capacity], slots)
    }

    method Init(cap: nat) returns (rc: Status)
      modifies this, entries
      ensures rc == if cap == 0 || cap > entries.Length then ErrParam else OK
      ensures rc == OK ==> Valid() && Contents() == map[] && capacity == cap
      ensures rc == ErrParam ==> unchanged(this) && unchanged(entries)
    {
      if cap == 0 || cap > entries.Length {
        return ErrParam;
      }
      forall i | 0 <= i < entries.Length {
        entries[i] := Entry(0, 0, Empty);
      }
      capacity := cap;
      count := 0;
      slots := map[];
      LiveNone(entries[..capacity]);
      rc := OK;
    }

    /** Occupy the free slot that d steps of the probe lead to. */
    method Place(idx: nat, k: Key, v: int, ghost d: nat)
      requires Valid() && k !in slots && d < capacity && idx == Slot(Home(capacity)(k), d, capacity)
      requires Passed(Home(capacity), entries[..capacity], k, d) && entries[idx].state != Occupied
      modifies this`count, this`slots, entries
      ensures Valid() && Contents() == old(Contents())[k := v]
    {
      hide Hash, Home, InRange, Table, Passed, Live, Slot, Mapped;
      ghost var es, home := entries[..capacity], Home(capacity);
      InsertKeeps(home, es, slots, k, v, d);
      entries[idx] := Entry(k, v, Occupied);
      count := count + 1;
      slots := slots[k := idx];
      assert entries[..capacity] == es[idx := Entry(k, v, Occupied)];
    }

    method Change(idx: nat, k: Key, v: int)
      requires Valid() && idx < capacity && Holds(entries[idx], k)
      modifies entries
      ensures Valid() && k in old(Contents()) && Contents() == old(Contents())[k := v]
    {
      hide Hash, Home, Live;
      ghost var es, home := entries[..capacity], Home(capacity);
      TableHolds(home, es, slots, k, idx);
      UpdateKeeps(home, es, slots, k, v);
      entries[idx] := entries[idx].(value := v);
      assert entries[..capacity] == es[idx := es[idx].(value := v)];
    }

    /** Leave a tombstone. */
    method Bury(idx: nat, k: Key)
      requires Valid() && idx < capacity && Holds(entries[idx], k)
      modifies this`count, this`slots, entries
      ensures Valid() && k in old(Contents()) && Contents() == old(Contents()) - {k}
    {
      hide Hash, Home, InRange, Table, Live, Mapped;
      ghost var es, home := entries[..capacity], Home(capacity);
      TableHolds(home, es, slots, k, idx);
      TableParts(home, es, slots);
      RemoveKeeps(home, es, slots, k);
      entries[idx] := entries[idx].(state := Deleted);
      assert (slots - {k})[k := idx] == slots;
      count := count - 1;
      slots := slots - {k};
      assert entries[..capacity] == es[idx := es[idx].(state := Deleted)];
    }

    /** Where a put of k goes: the slot that holds k, or the first free slot of the probe, if there is one. */
    method SeekPlace(k: Key) returns (found: bool, full: bool, idx: nat, ghost d: nat)
      requires Valid()
      ensures found ==> idx < capacity && Holds(entries[idx], k)
      ensures !found ==> k !in slots && InRange(Home(capacity), capacity)
      ensures !found && full ==> count == capacity && forall i :: 0 <= i < capacity ==> entries[i].state == Occupied
      ensures !found && !full ==>
                && count < capacity && d < capacity && idx == Slot(Home(capacity)(k), d, capacity)
                && Passed(Home(capacity), entries[..capacity], k, d) && entries[idx].state != Occupied
    {
      hide Hash, Home, InRange, Table, Passed, AllLive, Live, Slot;
      ghost var es, n, home := entries[..capacity], capacity, Home(capacity);
      TableParts(home, es, slots);
      var start := HashFnv1a(k, capacity);
      HomeAt(k, capacity);
      idx := start;
      found, full, d := false, false, 0;
      var foundDeleted, firstDeleted := false, 0;
      ghost var dDeleted := 0;
      ProbeStart(home, es, k);
      while true
        invariant d < n && idx == Slot(start, d, n) && Passed(home, es, k, d)
        invariant foundDeleted ==>
                    dDeleted < d && firstDeleted == Slot(start, dDeleted, n) && es[firstDeleted].state == Deleted
        invariant !foundDeleted ==> AllLive(home, es, k, d)
        decreases n - d
      {
        Advance(start, d, n);
        var e := entries[idx];
        assert e == es[idx];
        if e.state == Empty {
          ProbeProvesAbsent(home, es, slots, k, d);
          NotFull(es, idx);
          if foundDeleted {
            PassedEarlier(home, es, k, dDeleted, d);
            return false, false, firstDeleted, dDeleted;
          }
          return;
        }
        if e.state == Deleted {
          if !foundDeleted {
            foundDeleted, firstDeleted := true, idx;
            dDeleted := d;
          }
        } else if e.key == k {
          return true, false, idx, d;
        }
        ProbeNext(home, es, k, d);
        d := d + 1;
        idx := (idx + 1) % capacity;
        if idx == start {
          break;
        }
      }
      ProbeProvesAbsent(home, es, slots, k, n);
      if foundDeleted {
        PassedEarlier(home, es, k, dDeleted, n);
        NotFull(es, firstDeleted);
        return false, false, firstDeleted, dDeleted;
      }
      AllLiveRound(home, es, k);
      full := true;
    }

    /** Add or change a key. Refused, with nothing changed, iff the key is absent and every slot is occupied. */
    method Put(k: Key, v: int) returns (rc: Status)
      requires Valid()
      modifies this`count, this`slots, entries
      ensures Valid()
      ensures rc == if k !in old(Contents()) && old(count) == capacity then ErrFull else OK
      ensures rc == ErrFull ==> forall i :: 0 <= i < capacity ==> entries[i].state == Occupied
      ensures Contents() == if rc == OK then old(Contents())[k := v] else old(Contents())
      ensures rc == ErrFull ==> entries[..] == old(entries[..])
    {
      hide Hash, Home, InRange, Table, Passed, Live, Slot, Mapped;
      TableParts(Home(capacity), entries[..capacity], slots);
      var found, full, idx, d := SeekPlace(k);
      if found {
        Change(idx, k, v);
        return OK;
      }
      if full {
        return ErrFull;
      }
      Place(idx, k, v, d);
      rc := OK;
    }

    /** The probe that get and remove have in common. */
    method Lookup(k: Key) returns (found: bool, idx: nat)
      requires Valid()
      ensures found <==> k in slots
      ensures found ==> idx < capacity && Holds(entries[idx], k) && slots[k] == idx
    {
      hide Hash, Home, InRange, Table, Passed, AllLive, Live, Slot;
      ghost var es, n, home := entries[..capacity], capacity, Home(capacity);
      TableParts(home, es, slots);
      var start := HashFnv1a(k, capacity);
      HomeAt(k, capacity);
      idx := start;
      ghost var d := 0;
      ProbeStart(home, es, k);
      while true
        invariant d < n && idx == Slot(start, d, n) && Passed(home, es, k, d)
        decreases n - d
      {
        Advance(start, d, n);
        var e := entries[idx];
        assert e == es[idx];
        if e.state == Empty {
          ProbeProvesAbsent(home, es, slots, k, d);
          return false, idx;
        }
        if e.state == Occupied && e.key == k {
          TableHolds(home, es, slots, k, idx);
          return true, idx;
        }
        ProbeNext(home, es, k, d);
        d := d + 1;
        idx := (idx + 1) % capacity;
        if idx == start {
          break;
        }
      }
      ProbeProvesAbsent(home, es, slots, k, n);
      found := false;
    }

    method Get(k: Key) returns (rc: Status, value: int)
      requires Valid()
      ensures rc == if k in Contents() then OK else ErrNotFound
      ensures rc == OK ==> value == Contents()[k]
    {
      hide Hash, Home, InRange, Table, Live, Mapped;
      TableParts(Home(capacity), entries[..capacity], slots);
      var found, idx := Lookup(k);
      if !found {
        return ErrNotFound, 0;
      }
      rc, value := OK, entries[idx].value;
    }

    method Remove(k: Key) returns (rc: Status)
      requires Valid()
      modifies this`count, this`slots, entries
      ensures Valid()
      ensures rc == if k in old(Contents()) then OK else ErrNotFound
      ensures Contents() == old(Contents()) - {k}
      ensures rc == ErrNotFound ==> entries[..] == old(entries[..])
    {
      hide Hash, Home, InRange, Table, Live, Mapped;
      TableParts(Home(capacity), entries[..capacity], slots);
      var found, idx := Lookup(k);
      if !found {
        return ErrNotFound;
      }
      Bury(idx, k);
      rc := OK;
    }

    method Contains(k: Key) returns (found: bool)
      requires Valid()
      ensures found <==> k in Contents()
    {
      var rc, value := Get(k);
      found := rc == OK;
    }

    method Clear()
      requires Valid()
      modifies this`count, this`slots, entries
      ensures Valid() && Contents() == map[]
    {
      forall i | 0 <= i < entries.Length {
        entries[i] := Entry(0, 0, Empty);
      }
      count := 0;
      slots := map[];
      LiveNone(entries[..capacity]);
    }

    method Count() returns (n: nat)
      requires Valid()
      ensures n == |Contents()|
    {
      SameSize(entries[..capacity], slots);
      n := count;
    }
  }
}
