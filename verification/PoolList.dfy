/**
 Singly linked list in a fixed pool. The list and the free chain share one array of nodes;
 a node is named by its index.
 */
module PoolList {

  const NONE: int := 0xFF

  datatype Node = Node(data: int, next: int)

  datatype Status = OK | ErrFull | ErrEmpty | ErrParam | ErrNotFound | ErrBounds

  /** Following `next` from `start` visits exactly s and then ends. */
  ghost predicate Linked(ns: seq<Node>, start: int, s: seq<int>) {
    && start == LinkAt(s, 0)
    && forall i :: 0 <= i < |s| ==> 0 <= s[i] < |ns| && s[i] != NONE && ns[s[i]].next == LinkAt(s, i + 1)
  }

  ghost function LinkAt(s: seq<int>, i: nat): int {
    if i < |s| then s[i] else NONE
  }

  /** Every slot below the capacity occurs exactly once, and nothing else does. */
  ghost predicate Covers(s: seq<int>, capacity: nat) {
    forall x :: multiset(s)[x] == if 0 <= x < capacity then 1 else 0
  }

  ghost function Values(ns: seq<Node>, s: seq<int>): (vs: seq<int>)
    requires forall i :: 0 <= i < |s| ==> 0 <= s[i] < |ns|
    ensures |vs| == |s| && forall i :: 0 <= i < |s| ==> vs[i] == ns[s[i]].data
  {
    seq(|s|, i requires 0 <= i < |s| => ns[s[i]].data)
  }

  lemma Split(s: seq<int>, i: nat)
    requires i < |s|
    ensures multiset(s) == multiset(s[..i]) + multiset{s[i]} + multiset(s[i + 1..])
  {
    assert s == s[..i] + [s[i]] + s[i + 1..];
  }

  lemma Join(s: seq<int>, u: seq<int>, v: seq<int>)
    ensures multiset(s + u + v) == multiset(s) + multiset(u) + multiset(v)
  {}

  lemma CoversOnce(s: seq<int>, capacity: nat, i: nat, j: nat)
    requires Covers(s, capacity) && i < j < |s|
    ensures s[i] != s[j]
  {
    Split(s, i);
    assert s[i + 1..][j - i - 1] == s[j];
    assert s[j] in multiset(s[i + 1..]);
    assert multiset(s)[s[j]] >= 1 + if s[i] == s[j] then 1 else 0;
  }

  lemma CoversRange(s: seq<int>, capacity: nat, x: int)
    requires Covers(s, capacity)
    ensures x in s <==> 0 <= x < capacity
  {
    assert x in s <==> multiset(s)[x] > 0;
  }

  lemma {:induction false} CoversSize(m: multiset<int>, capacity: nat)
    requires forall x :: m[x] == if 0 <= x < capacity then 1 else 0
    ensures |m| == capacity
  {
    if capacity == 0 {
      forall x
        ensures x !in m
      {
        assert m[x] == 0;
      }
    } else {
      var last := capacity - 1;
      CoversSize(m[last := 0], last);
      assert m == m[last := 0] + multiset{last};
    }
  }

  // Moving one slot between the active chain a, the free chain d, and neither.

  ghost function Inserted(s: seq<int>, p: nat, x: int): seq<int>
    requires p <= |s|
  {
    s[..p] + [x] + s[p..]
  }

  ghost function Removed(s: seq<int>, p: nat): seq<int>
    requires p < |s|
  {
    s[..p] + s[p + 1..]
  }

  lemma Counted(s: seq<int>, s': seq<int>, capacity: nat)
    requires Covers(s, capacity) && multiset(s) == multiset(s')
    ensures Covers(s', capacity)
  {}

  lemma InsertedCount(s: seq<int>, p: nat, x: int)
    requires p <= |s|
    ensures multiset(Inserted(s, p, x)) == multiset(s) + multiset{x}
  {
    assert s == s[..p] + s[p..];
  }

  lemma RemovedCount(s: seq<int>, p: nat)
    requires p < |s|
    ensures multiset(Removed(s, p)) + multiset{s[p]} == multiset(s)
  {
    Split(s, p);
  }

  lemma PutIn(a: seq<int>, d: seq<int>, p: nat, x: int, capacity: nat)
    requires Covers(a + d + [x], capacity) && p <= |a|
    ensures Covers(Inserted(a, p, x) + d + [], capacity)
  {
    hide Covers, Inserted;
    InsertedCount(a, p, x);
    Join(a, d, [x]);
    Join(Inserted(a, p, x), d, []);
    Counted(a + d + [x], Inserted(a, p, x) + d + [], capacity);
  }

  lemma TakeOut(a: seq<int>, d: seq<int>, p: nat, capacity: nat)
    requires Covers(a + d + [], capacity) && p < |a|
    ensures Covers(Removed(a, p) + d + [a[p]], capacity)
  {
    hide Covers, Removed;
    RemovedCount(a, p);
    Join(a, d, []);
    Join(Removed(a, p), d, [a[p]]);
    Counted(a + d + [], Removed(a, p) + d + [a[p]], capacity);
  }

  lemma TakeFree(a: seq<int>, d: seq<int>, capacity: nat)
    requires Covers(a + d + [], capacity) && d != []
    ensures Covers(a + d[1..] + [d[0]], capacity)
  {
    hide Covers;
    Join(a, d, []);
    Join(a, d[1..], [d[0]]);
    Split(d, 0);
    Counted(a + d + [], a + d[1..] + [d[0]], capacity);
  }

  lemma GiveBack(a: seq<int>, d: seq<int>, x: int, capacity: nat)
    requires Covers(a + d + [x], capacity)
    ensures Covers(a + ([x] + d) + [], capacity)
  {
    hide Covers;
    Join(a, d, [x]);
    Join(a, [x] + d, []);
    Counted(a + d + [x], a + ([x] + d) + [], capacity);
  }

  /** No slot is in two places. */
  ghost predicate Distinct(s: seq<int>, capacity: nat) {
    && |s| == capacity && (forall i :: 0 <= i < |s| ==> 0 <= s[i] < capacity)
    && forall i, j :: 0 <= i < j < |s| ==> s[i] != s[j]
  }

  lemma CoversDistinct(s: seq<int>, capacity: nat)
    requires Covers(s, capacity)
    ensures Distinct(s, capacity)
  {
    hide Covers;
    CoversCard(s, capacity);
    forall i, j | 0 <= i < j < |s|
      ensures s[i] != s[j]
    {
      CoversOnce(s, capacity, i, j);
    }
    forall i | 0 <= i < |s|
      ensures 0 <= s[i] < capacity
    {
      CoversRange(s, capacity, s[i]);
    }
  }

  lemma CoversCard(s: seq<int>, capacity: nat)
    requires Covers(s, capacity)
    ensures |s| == capacity
  {
    CoversSize(multiset(s), capacity);
  }

  /** A slot on neither chain. */
  lemma OutApart(a: seq<int>, d: seq<int>, x: int, capacity: nat)
    requires Covers(a + d + [x], capacity)
    ensures 0 <= x < capacity && (forall i :: 0 <= i < |a| ==> a[i] != x) && (forall i :: 0 <= i < |d| ==> d[i] != x)
  {
    hide Covers;
    var s := a + d + [x];
    CoversDistinct(s, capacity);
    assert s[|a| + |d|] == x;
    assert forall i :: 0 <= i < |a| ==> a[i] == s[i];
    assert forall i :: 0 <= i < |d| ==> d[i] == s[|a| + i];
  }

  lemma ChainsRange(a: seq<int>, d: seq<int>, o: seq<int>, capacity: nat)
    requires Covers(a + d + o, capacity)
    ensures forall i :: 0 <= i < |a| ==> 0 <= a[i] < capacity
    ensures forall i :: 0 <= i < |d| ==> 0 <= d[i] < capacity
    ensures |a| + |d| + |o| == capacity
  {
    hide Covers;
    var s := a + d + o;
    CoversDistinct(s, capacity);
    assert forall i :: 0 <= i < |a| ==> a[i] == s[i];
    assert forall i :: 0 <= i < |d| ==> d[i] == s[|a| + i];
  }

  lemma ChainApart(a: seq<int>, d: seq<int>, o: seq<int>, capacity: nat, p: nat)
    requires Covers(a + d + o, capacity) && p < |a|
    ensures forall i :: 0 <= i < |a| && i != p ==> a[i] != a[p]
    ensures forall i :: 0 <= i < |d| ==> d[i] != a[p]
  {
    hide Covers;
    var s := a + d + o;
    CoversDistinct(s, capacity);
    assert s[p] == a[p];
    assert forall i :: 0 <= i < |a| ==> a[i] == s[i];
    assert forall i :: 0 <= i < |d| ==> d[i] == s[|a| + i];
  }

  /** Writes outside a chain leave it alone. */
  lemma LinkedFrame(ns: seq<Node>, ns': seq<Node>, start: int, s: seq<int>)
    requires Linked(ns, start, s) && |ns'| == |ns| && forall i :: 0 <= i < |s| ==> ns'[s[i]] == ns[s[i]]
    ensures Linked(ns', start, s) && Values(ns', s) == Values(ns, s)
  {}

  lemma LinkedStart(ns: seq<Node>, start: int, s: seq<int>)
    requires Linked(ns, start, s)
    ensures start == LinkAt(s, 0) && (start == NONE <==> s == [])
  {}

  lemma LinkedNext(ns: seq<Node>, start: int, s: seq<int>, i: nat)
    requires Linked(ns, start, s) && i < |s|
    ensures 0 <= s[i] < |ns| && s[i] != NONE && ns[s[i]].next == LinkAt(s, i + 1)
    ensures LinkAt(s, i + 1) == NONE <==> i + 1 == |s|
  {}

  /** Prepending x, or splicing it in after place p - 1. */
  lemma LinkedInsert(ns: seq<Node>, ns': seq<Node>, start: int, start': int, s: seq<int>, p: nat, x: int)
    requires Linked(ns, start, s) && p <= |s| && |ns'| == |ns| && 0 <= x < |ns| && x != NONE
    requires forall i :: 0 <= i < |s| && i != p - 1 ==> ns'[s[i]] == ns[s[i]]
    requires p > 0 ==> ns'[s[p - 1]] == ns[s[p - 1]].(next := x)
    requires start' == (if p == 0 then x else start) && ns'[x].next == LinkAt(s, p)
    ensures Linked(ns', start', Inserted(s, p, x))
    ensures Values(ns', Inserted(s, p, x)) == Inserted(Values(ns, s), p, ns'[x].data)
  {
    var s' := Inserted(s, p, x);
    forall i | 0 <= i < |s'|
      ensures 0 <= s'[i] < |ns| && s'[i] != NONE && ns'[s'[i]].next == LinkAt(s', i + 1)
      ensures ns'[s'[i]].data == Inserted(Values(ns, s), p, ns'[x].data)[i]
    {
      InsertedAt(s, p, x, i);
      InsertedAt(Values(ns, s), p, ns'[x].data, i);
      if i + 1 < |s'| {
        InsertedAt(s, p, x, i + 1);
      }
    }
  }

  lemma InsertedAt(s: seq<int>, p: nat, x: int, i: nat)
    requires p <= |s| && i <= |s|
    ensures |Inserted(s, p, x)| == |s| + 1
    ensures Inserted(s, p, x)[i] == if i < p then s[i] else if i == p then x else s[i - 1]
  {}

  /** Dropping the head, or unlinking the node after place p - 1. */
  lemma LinkedRemove(ns: seq<Node>, ns': seq<Node>, start: int, start': int, s: seq<int>, p: nat)
    requires Linked(ns, start, s) && p < |s| && |ns'| == |ns|
    requires forall i :: 0 <= i < |s| && i != p - 1 ==> ns'[s[i]] == ns[s[i]]
    requires p > 0 ==> ns'[s[p - 1]] == ns[s[p - 1]].(next := LinkAt(s, p + 1))
    requires start' == if p == 0 then LinkAt(s, 1) else start
    ensures Linked(ns', start', Removed(s, p))
    ensures Values(ns', Removed(s, p)) == Removed(Values(ns, s), p)
  {
    hide Removed, Values;
    var s' := Removed(s, p);
    RemovedAt(s, p);
    forall i | 0 <= i < |s'|
      ensures 0 <= s'[i] < |ns| && s'[i] != NONE && ns'[s'[i]].next == LinkAt(s', i + 1)
    {
      RemovedNext(s, p, i);
    }
    RemovedValues(ns, ns', s, p);
  }

  lemma RemovedNext(s: seq<int>, p: nat, i: nat)
    requires p < |s| && i < |s| - 1
    ensures var j := if i < p then i else i + 1;
            Removed(s, p)[i] == s[j] && LinkAt(Removed(s, p), i + 1) == LinkAt(s, if j == p - 1 then p + 1 else j + 1)
  {}

  lemma RemovedValues(ns: seq<Node>, ns': seq<Node>, s: seq<int>, p: nat)
    requires p < |s| && |ns'| == |ns| && (forall i :: 0 <= i < |s| ==> 0 <= s[i] < |ns|)
    requires forall i :: 0 <= i < |s| ==> ns'[s[i]].data == ns[s[i]].data
    ensures forall i :: 0 <= i < |Removed(s, p)| ==> 0 <= Removed(s, p)[i] < |ns'|
    ensures Values(ns', Removed(s, p)) == Removed(Values(ns, s), p)
  {
    RemovedAt(s, p);
  }

  lemma RemovedAt(s: seq<int>, p: nat)
    requires p < |s|
    ensures |Removed(s, p)| == |s| - 1
    ensures forall i :: 0 <= i < |s| - 1 ==> Removed(s, p)[i] == if i < p then s[i] else s[i + 1]
  {}

  class List {
    const pool: array<Node>
    var head: int
    var free: int
    var count: nat
    var capacity: nat
    ghost var active: seq<int>
    ghost var idle: seq<int>

    /** A list before it is initialised. */
    constructor (maxNodes: nat)
      ensures pool.Length == maxNodes && fresh(pool)
    {
      pool := new Node[maxNodes](_ => Node(0, 0));
    }

    /** The two chains, and the slots in `out` that are on neither, share out the pool. */
    ghost predicate Shared(out: seq<int>)
      reads this, pool
    {
      && 1 <= capacity <= pool.Length <= 255
      && Linked(pool[..], head, active) && Linked(pool[..], free, idle)
      && Covers(active + idle + out, capacity)
    }

    ghost predicate Valid()
      reads this, pool
    {
      Shared([]) && count == |active|
    }

    ghost function Contents(): seq<int>
      requires forall i :: 0 <= i < |active| ==> 0 <= active[i] < pool.Length
      reads this, pool
    {
      Values(pool[..], active)
    }

    /** Take the first free slot, if there is one. */
    method PoolAlloc() returns (idx: int)
      requires Valid()
      modifies this`free, this`idle, pool
      ensures idx == NONE <==> |active| == capacity
      ensures idx == NONE ==> Valid() && unchanged(this) && unchanged(pool)
      ensures idx != NONE ==> Shared([idx]) && 0 <= idx < capacity && pool[idx].next == NONE
      ensures forall i :: 0 <= i < |active| ==> 0 <= active[i] < pool.Length && pool[active[i]] == old(pool[active[i]])
    {
      hide Linked, Covers, Values;
      ChainsRange(active, idle, [], capacity);
      LinkedStart(pool[..], free, idle);
      if free == NONE {
        return NONE;
      }
      ghost var ns := pool[..];
      LinkedNext(ns, free, idle, 0);
      TakeFree(active, idle, capacity);
      OutApart(active, idle[1..], idle[0], capacity);
      idx := free;
      free := pool[idx].next;
      pool[idx] := pool[idx].(next := NONE);
      LinkedRemove(ns, ns, idx, free, idle, 0);
      assert Removed(idle, 0) == idle[1..];
      LinkedFrame(ns, pool[..], head, active);
      LinkedFrame(ns, pool[..], free, idle[1..]);
      idle := idle[1..];
    }

    /** Give a slot back. */
    method PoolFree(idx: int)
      requires Shared([idx])
      modifies this`free, this`idle, pool
      ensures Shared([]) && idle == [idx] + old(idle)
      ensures Values(pool[..], active) == old(Values(pool[..], active))
    {
      hide Linked, Covers, Values;
      OutApart(active, idle, idx, capacity);
      ChainsRange(active, idle, [idx], capacity);
      ghost var ns := pool[..];
      LinkedStart(ns, free, idle);
      pool[idx] := pool[idx].(data := 0);
      pool[idx] := pool[idx].(next := free);
      LinkedFrame(ns, pool[..], head, active);
      LinkedInsert(ns, pool[..], free, idx, idle, 0, idx);
      assert Inserted(idle, 0, idx) == [idx] + idle;
      free := idx;
      GiveBack(active, idle, idx, capacity);
      idle := [idx] + idle;
    }

    method IsActiveNode(nodeIdx: int) returns (yes: bool)
      requires Valid()
      ensures yes <==> nodeIdx in active
    {
      hide Linked, Covers, Values;
      ChainsRange(active, idle, [], capacity);
      LinkedStart(pool[..], head, active);
      if nodeIdx >= capacity {
        return false;
      }
      var cur := head;
      ghost var k := 0;
      while cur != NONE
        invariant k <= |active| && cur == LinkAt(active, k) && nodeIdx !in active[..k]
        decreases |active| - k
      {
        LinkedNext(pool[..], head, active, k);
        if cur == nodeIdx {
          return true;
        }
        cur := pool[cur].next;
        k := k + 1;
      }
      assert active[..k] == active;
      yes := false;
    }

    method Init(cap: nat) returns (rc: Status)
      requires pool.Length <= 255
      modifies this, pool
      ensures rc == if cap == 0 || cap > pool.Length then ErrParam else OK
      ensures rc == OK ==> Valid() && active == [] && Contents() == [] && capacity == cap
      ensures rc == ErrParam ==> unchanged(this) && unchanged(pool)
    {
      hide Linked, Covers, Values;
      if cap == 0 || cap > pool.Length {
        return ErrParam;
      }
      forall i | 0 <= i < pool.Length {
        pool[i] := Node(0, 0);
      }
      for i := 0 to cap - 1
        invariant forall j :: 0 <= j < i ==> pool[j].next == j + 1
      {
        pool[i] := pool[i].(next := i + 1);
      }
      pool[cap - 1] := pool[cap - 1].(next := NONE);
      head := NONE;
      free := 0;
      count := 0;
      capacity := cap;
      active, idle := [], Upto(cap);
      NewChains(pool[..], cap);
      rc := OK;
    }

    /** What every insertion ends with: the new node is linked in at place p. */
    method LinkIn(idx: int, ghost p: nat, ghost ns: seq<Node>, ghost start: int)
      requires 1 <= capacity <= pool.Length <= 255 && |ns| == pool.Length && count == |active|
      requires Linked(ns, start, active) && Linked(pool[..], free, idle) && Covers(active + idle + [idx], capacity)
      requires p <= |active| && 0 <= idx < capacity
      requires forall i :: 0 <= i < |active| ==> 0 <= active[i] < |ns|
      requires forall i :: 0 <= i < |active| && i != p - 1 ==> pool[active[i]] == ns[active[i]]
      requires p > 0 ==> pool[active[p - 1]] == ns[active[p - 1]].(next := idx)
      requires head == (if p == 0 then idx else start) && pool[idx].next == LinkAt(active, p)
      modifies this`count, this`active
      ensures Valid() && active == Inserted(old(active), p, idx) && p < |active| && active[p] == idx
      ensures Contents() == Inserted(Values(ns, old(active)), p, pool[idx].data)
    {
      hide Linked, Covers, Values, Inserted;
      LinkedInsert(ns, pool[..], start, head, active, p, idx);
      PutIn(active, idle, p, idx, capacity);
      InsertedAt(active, p, idx, p);
      active := Inserted(active, p, idx);
      count := count + 1;
      ChainsRange(active, idle, [], capacity);
    }

    /** Take a free slot for a value; it is on neither chain yet. */
    method NewNode(value: int) returns (idx: int)
      requires Valid()
      modifies this`free, this`idle, pool
      ensures idx == NONE <==> |active| == capacity
      ensures idx == NONE ==> Valid() && unchanged(this) && unchanged(pool)
      ensures idx != NONE ==> Shared([idx]) && 0 <= idx < capacity && pool[idx] == Node(value, NONE)
      ensures forall i :: 0 <= i < |active| ==> 0 <= active[i] < pool.Length && active[i] != idx
      ensures forall i :: 0 <= i < |idle| ==> 0 <= idle[i] < pool.Length && idle[i] != idx
      ensures Values(pool[..], active) == old(Values(pool[..], active))
    {
      hide Linked, Covers, Values;
      ghost var ns := pool[..];
      ChainsRange(active, idle, [], capacity);
      idx := PoolAlloc();
      if idx == NONE {
        return;
      }
      OutApart(active, idle, idx, capacity);
      ChainsRange(active, idle, [idx], capacity);
      LinkedFrame(ns, pool[..], head, active);
      ghost var ns1 := pool[..];
      pool[idx] := pool[idx].(data := value);
      LinkedFrame(ns1, pool[..], head, active);
      LinkedFrame(ns1, pool[..], free, idle);
    }

    method PushFront(value: int) returns (rc: Status)
      requires Valid()
      modifies this`head, this`free, this`count, this`active, this`idle, pool
      ensures Valid()
      ensures rc == if |old(active)| == capacity then ErrFull else OK
      ensures rc == OK ==> Contents() == [value] + old(Contents()) && |active| > 0 && active[1..] == old(active)
      ensures rc == ErrFull ==> unchanged(this) && unchanged(pool)
    {
      hide Linked, Covers, Values;
      var idx := NewNode(value);
      if idx == NONE {
        return ErrFull;
      }
      ghost var ns, start := pool[..], head;
      LinkedStart(ns, head, active);
      pool[idx] := pool[idx].(next := head);
      LinkedFrame(ns, pool[..], free, idle);
      head := idx;
      assert Inserted(active, 0, idx) == [idx] + active;
      assert Inserted(Values(ns, active), 0, value) == [value] + Values(ns, active);
      LinkIn(idx, 0, ns, start);
      rc := OK;
    }

    method PushBack(value: int) returns (rc: Status)
      requires Valid()
      modifies this`head, this`free, this`count, this`active, this`idle, pool
      ensures Valid()
      ensures rc == if |old(active)| == capacity then ErrFull else OK
      ensures rc == OK ==> Contents() == old(Contents()) + [value] && |active| > 0
                           && active[..|active| - 1] == old(active)
      ensures rc == ErrFull ==> unchanged(this) && unchanged(pool)
    {
      hide Linked, Covers, Values;
      var idx := NewNode(value);
      if idx == NONE {
        return ErrFull;
      }
      ghost var ns, start, n := pool[..], head, |active|;
      pool[idx] := pool[idx].(next := NONE);
      assert pool[..] == ns;
      LinkedStart(ns, head, active);
      if head == NONE {
        head := idx;
      } else {
        var cur := head;
        ghost var k := 0;
        LinkedNext(ns, start, active, 0);
        label Walk:
        while pool[cur].next != NONE
          invariant unchanged@Walk(this) && unchanged@Walk(pool)
          invariant k < |active| && cur == active[k] && pool[cur].next == LinkAt(active, k + 1)
          invariant LinkAt(active, k + 1) == NONE <==> k + 1 == |active|
          decreases |active| - k
        {
          cur := pool[cur].next;
          k := k + 1;
          LinkedNext(ns, start, active, k);
        }
        ChainApart(active, idle, [idx], capacity, k);
        pool[cur] := pool[cur].(next := idx);
        LinkedFrame(ns, pool[..], free, idle);
      }
      assert Inserted(active, n, idx) == active + [idx];
      assert Inserted(Values(ns, active), n, value) == Values(ns, active) + [value];
      LinkIn(idx, n, ns, start);
      rc := OK;
    }

    /** A new node after an active one; p is the place of that one in the list. */
    method InsertAfter(nodeIdx: int, value: int) returns (rc: Status, ghost p: nat)
      requires Valid()
      modifies this`free, this`count, this`active, this`idle, pool
      ensures Valid()
      ensures rc == if nodeIdx !in old(active) then ErrBounds else if |old(active)| == capacity then ErrFull else OK
      ensures rc == OK ==> p < |old(active)| && old(active)[p] == nodeIdx
      ensures rc == OK ==> Contents() == Inserted(old(Contents()), p + 1, value)
      ensures rc == OK ==> p + 1 < |active| && active == Inserted(old(active), p + 1, active[p + 1])
      ensures rc != OK ==> unchanged(this) && unchanged(pool)
    {
      hide Linked, Covers, Values, Inserted;
      p := 0;
      var known := IsActiveNode(nodeIdx);
      if !known {
        return ErrBounds, p;
      }
      p :| p < |active| && active[p] == nodeIdx;
      var idx := NewNode(value);
      if idx == NONE {
        return ErrFull, p;
      }
      ghost var ns := pool[..];
      ChainApart(active, idle, [idx], capacity, p);
      LinkedNext(ns, head, active, p);
      pool[idx] := pool[idx].(next := pool[nodeIdx].next);
      pool[nodeIdx] := pool[nodeIdx].(next := idx);
      LinkedFrame(ns, pool[..], free, idle);
      LinkIn(idx, p + 1, ns, head);
      rc := OK;
    }

    method PopFront() returns (rc: Status, value: int)
      requires Valid()
      modifies this`head, this`free, this`count, this`active, this`idle, pool
      ensures Valid()
      ensures rc == if old(active) == [] then ErrEmpty else OK
      ensures rc == OK ==> value == old(Contents())[0] && Contents() == old(Contents())[1..]
                           && active == old(active)[1..]
      ensures rc == ErrEmpty ==> unchanged(this) && unchanged(pool)
    {
      hide Linked, Covers, Values;
      ChainsRange(active, idle, [], capacity);
      LinkedStart(pool[..], head, active);
      if head == NONE {
        return ErrEmpty, 0;
      }
      var idx := head;
      value := pool[idx].data;
      LinkedNext(pool[..], head, active, 0);
      LinkedRemove(pool[..], pool[..], head, pool[idx].next, active, 0);
      TakeOut(active, idle, 0, capacity);
      assert Removed(active, 0) == active[1..] && Removed(Contents(), 0) == Contents()[1..];
      head := pool[idx].next;
      active := active[1..];
      PoolFree(idx);
      count := count - 1;
      rc := OK;
    }

    /** Unlink an active node; p is its place in the list. An empty list is reported as a bad index, too. */
    method Remove(nodeIdx: int) returns (rc: Status, ghost p: nat)
      requires Valid()
      modifies this`head, this`free, this`count, this`active, this`idle, pool
      ensures Valid()
      ensures rc == if nodeIdx in old(active) then OK else ErrBounds
      ensures rc == OK ==> p < |old(active)| && old(active)[p] == nodeIdx
      ensures rc == OK ==> active == Removed(old(active), p) && Contents() == Removed(old(Contents()), p)
      ensures rc != OK ==> unchanged(this) && unchanged(pool)
    {
      hide Linked, Covers, Values, Removed;
      p := 0;
      ChainsRange(active, idle, [], capacity);
      ghost var ns := pool[..];
      LinkedStart(ns, head, active);
      if head == NONE {
        return ErrBounds, p;
      }
      if nodeIdx >= capacity {
        return ErrBounds, p;
      }
      LinkedNext(ns, head, active, 0);
      if head == nodeIdx {
        head := pool[nodeIdx].next;
        Unlink(nodeIdx, 0, ns, nodeIdx);
        return OK, p;
      }
      var cur := head;
      while cur != NONE
        invariant p <= |active| && cur == LinkAt(active, p) && nodeIdx !in active[..p]
        invariant p < |active| ==> nodeIdx != active[p]
        invariant unchanged(this) && unchanged(pool)
        decreases |active| - p
      {
        LinkedNext(ns, head, active, p);
        if pool[cur].next == nodeIdx {
          ChainApart(active, idle, [], capacity, p);
          pool[cur] := pool[cur].(next := pool[nodeIdx].next);
          p := p + 1;
          LinkedNext(ns, head, active, p);
          LinkedFrame(ns, pool[..], free, idle);
          Unlink(nodeIdx, p, ns, head);
          return OK, p;
        }
        cur := pool[cur].next;
        p := p + 1;
      }
      assert active[..p] == active;
      rc := ErrBounds;
    }

    /** What every removal ends with: the node at place p is off the chain and goes back to the free one. */
    method Unlink(nodeIdx: int, ghost p: nat, ghost ns: seq<Node>, ghost start: int)
      requires 1 <= capacity <= pool.Length <= 255 && |ns| == pool.Length && count == |active|
      requires Linked(ns, start, active) && Linked(pool[..], free, idle) && Covers(active + idle + [], capacity)
      requires p < |active| && active[p] == nodeIdx
      requires forall i :: 0 <= i < |active| ==> 0 <= active[i] < |ns|
      requires forall i :: 0 <= i < |active| && i != p - 1 ==> pool[active[i]] == ns[active[i]]
      requires p > 0 ==> pool[active[p - 1]] == ns[active[p - 1]].(next := LinkAt(active, p + 1))
      requires head == if p == 0 then LinkAt(active, 1) else start
      modifies this`free, this`count, this`active, this`idle, pool
      ensures Valid() && active == Removed(old(active), p) && Contents() == Removed(Values(ns, old(active)), p)
    {
      hide Linked, Covers, Values, Removed;
      LinkedRemove(ns, pool[..], start, head, active, p);
      TakeOut(active, idle, p, capacity);
      RemovedAt(active, p);
      active := Removed(active, p);
      PoolFree(nodeIdx);
      count := count - 1;
      ChainsRange(active, idle, [], capacity);
    }

    method Find(value: int) returns (rc: Status, nodeIdx: int, ghost p: nat)
      requires Valid()
      ensures rc == if value in Contents() then OK else ErrNotFound
      ensures rc == OK ==> p < |active| && active[p] == nodeIdx && Contents()[p] == value && value !in Contents()[..p]
    {
      hide Linked, Covers;
      p, nodeIdx := 0, NONE;
      ChainsRange(active, idle, [], capacity);
      LinkedStart(pool[..], head, active);
      var cur := head;
      while cur != NONE
        invariant p <= |active| && cur == LinkAt(active, p) && value !in Contents()[..p]
        decreases |active| - p
      {
        LinkedNext(pool[..], head, active, p);
        if pool[cur].data == value {
          assert Contents()[p] == value;
          return OK, cur, p;
        }
        cur := pool[cur].next;
        p := p + 1;
      }
      assert Contents()[..p] == Contents();
      rc := ErrNotFound;
    }

    method Get(nodeIdx: int) returns (rc: Status, value: int)
      requires Valid()
      ensures rc == if nodeIdx in active then OK else ErrBounds
      ensures rc == OK ==> forall p :: 0 <= p < |active| && active[p] == nodeIdx ==> value == Contents()[p]
    {
      var known := IsActiveNode(nodeIdx);
      if !known {
        return ErrBounds, 0;
      }
      value := pool[nodeIdx].data;
      rc := OK;
    }

    method Next(nodeIdx: int) returns (next: int)
      requires Valid()
      ensures nodeIdx !in active ==> next == NONE
      ensures forall p :: 0 <= p < |active| && active[p] == nodeIdx ==> next == LinkAt(active, p + 1)
    {
      ChainsRange(active, idle, [], capacity);
      if nodeIdx >= capacity {
        return NONE;
      }
      var known := IsActiveNode(nodeIdx);
      if !known {
        return NONE;
      }
      next := pool[nodeIdx].next;
    }

    method Clear() returns (rc: Status)
      requires Valid()
      modifies this, pool
      ensures rc == OK && Valid() && Contents() == [] && capacity == old(capacity)
    {
      rc := Init(capacity);
    }

    method Size() returns (n: nat)
      requires Valid()
      ensures n == |Contents()|
    {
      n := count;
    }
  }

  lemma NewChains(ns: seq<Node>, cap: nat)
    requires 0 < cap <= |ns| <= 255 && ns[cap - 1].next == NONE
    requires forall j :: 0 <= j < cap - 1 ==> ns[j].next == j + 1
    ensures Linked(ns, NONE, []) && Values(ns, []) == []
    ensures Linked(ns, 0, Upto(cap)) && Covers([] + Upto(cap) + [], cap)
  {
    hide Covers, Upto;
    assert [] + Upto(cap) + [] == Upto(cap);
    forall i | 0 <= i < cap
      ensures ns[Upto(cap)[i]].next == LinkAt(Upto(cap), i + 1)
    {
      assert Upto(cap)[i] == i;
    }
  }

  ghost function Upto(n: nat): (s: seq<int>)
    ensures |s| == n && (forall i :: 0 <= i < n ==> s[i] == i) && Covers(s, n)
  {
    if n == 0 then [] else Upto(n - 1) + [n - 1]
  }
}
