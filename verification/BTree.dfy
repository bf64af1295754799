/**
 B-tree with nodes in a fixed pool. Keys in a tree are described by their in-order sequence;
 the pool is described by a ghost tree whose nodes carry their pool index.
 */
module BTree {
  import opened Radix

  const NONE: int := 0xFF

  datatype Status = OK | ErrFull | ErrEmpty | ErrNotFound

  /** An empty slot. */
  function Blank(t: nat): Node
    requires t >= 1
  {
    Node(seq(2 * t - 1, _ => 0), seq(2 * t, _ => 0), 0, false)
  }

  /** One pool slot. Only the first nKeys keys, and nKeys + 1 children, are meaningful. */
  datatype Node = Node(keys: seq<int>, children: seq<int>, nKeys: nat, isLeaf: bool)

  /** The tree a pool represents; a node without kids is a leaf. */
  datatype Tree = Tree(id: int, keys: seq<int>, kids: seq<Tree>)

  // ----- in-order keys

  ghost function Flat(tr: Tree): seq<int>
    decreases tr
  {
    if tr.kids == [] then tr.keys else Weave(tr.keys, tr.kids)
  }

  /** kid, key, kid, key, ..., kid; missing keys or kids are skipped. */
  ghost function Weave(keys: seq<int>, kids: seq<Tree>): seq<int>
    decreases kids
  {
    if kids == [] then []
    else Flat(kids[0]) + (if keys == [] then [] else [keys[0]] + Weave(keys[1..], kids[1..]))
  }

  /** The part of a weave before kid i. */
  ghost function Before(keys: seq<int>, kids: seq<Tree>, i: nat): seq<int>
    requires i <= |keys| && i <= |kids|
  {
    if i == 0 then [] else Before(keys, kids, i - 1) + Flat(kids[i - 1]) + [keys[i - 1]]
  }

  /** The part of a weave from separator i on. */
  ghost function After(keys: seq<int>, kids: seq<Tree>, i: nat): seq<int>
    requires i <= |keys| && |kids| == |keys| + 1
    decreases |keys| - i
  {
    if i == |keys| then [] else [keys[i]] + Flat(kids[i + 1]) + After(keys, kids, i + 1)
  }

  lemma {:induction false} WeaveAt(keys: seq<int>, kids: seq<Tree>, i: nat)
    requires |kids| == |keys| + 1 && i <= |keys|
    ensures Weave(keys, kids) == Before(keys, kids, i) + Flat(kids[i]) + After(keys, kids, i)
  {
    if i > 0 {
      WeaveAt(keys, kids, i - 1);
      assert After(keys, kids, i - 1) == [keys[i - 1]] + Flat(kids[i]) + After(keys, kids, i);
    } else {
      WeaveFront(keys, kids);
    }
  }

  lemma {:induction false} WeaveFront(keys: seq<int>, kids: seq<Tree>)
    requires |kids| == |keys| + 1
    ensures Weave(keys, kids) == Flat(kids[0]) + After(keys, kids, 0)
    decreases |keys|
  {
    if keys != [] {
      WeaveFront(keys[1..], kids[1..]);
      AfterShift(keys, kids, 0);
    }
  }

  lemma {:induction false} AfterShift(keys: seq<int>, kids: seq<Tree>, i: nat)
    requires |kids| == |keys| + 1 && i + 1 <= |keys|
    ensures After(keys[1..], kids[1..], i) == After(keys, kids, i + 1)
    decreases |keys| - i
  {
    if i + 1 < |keys| {
      AfterShift(keys, kids, i + 1);
    }
  }

  lemma {:induction false} BeforeSame(keys: seq<int>, kids: seq<Tree>, keys': seq<int>, kids': seq<Tree>, i: nat)
    requires i <= |keys| && i <= |kids| && i <= |keys'| && i <= |kids'|
    requires keys[..i] == keys'[..i] && kids[..i] == kids'[..i]
    ensures Before(keys, kids, i) == Before(keys', kids', i)
  {
    if i > 0 {
      assert keys[i - 1] == keys[..i][i - 1] && kids[i - 1] == kids[..i][i - 1];
      assert keys'[i - 1] == keys'[..i][i - 1] && kids'[i - 1] == kids'[..i][i - 1];
      assert keys[..i - 1] == keys[..i][..i - 1] && kids[..i - 1] == kids[..i][..i - 1];
      assert keys'[..i - 1] == keys'[..i][..i - 1] && kids'[..i - 1] == kids'[..i][..i - 1];
      BeforeSame(keys, kids, keys', kids', i - 1);
    }
  }

  /** A tail of a weave depends only on the keys and kids in it, wherever they sit. */
  lemma {:induction false} AfterSame(keys: seq<int>, kids: seq<Tree>, keys': seq<int>, kids': seq<Tree>, i: nat, j: nat)
    requires |kids| == |keys| + 1 && |kids'| == |keys'| + 1 && i <= |keys| && j <= |keys'|
    requires keys[i..] == keys'[j..] && kids[i + 1..] == kids'[j + 1..]
    ensures After(keys, kids, i) == After(keys', kids', j)
    decreases |keys| - i
  {
    assert |keys| - i == |keys[i..]| == |keys'[j..]|;
    if i < |keys| {
      assert keys[i] == keys[i..][0] && keys'[j] == keys'[j..][0];
      assert kids[i + 1] == kids[i + 1..][0] && kids'[j + 1] == kids'[j + 1..][0];
      assert keys[i + 1..] == keys[i..][1..] && keys'[j + 1..] == keys'[j..][1..];
      assert kids[i + 2..] == kids[i + 1..][1..] && kids'[j + 2..] == kids'[j + 1..][1..];
      AfterSame(keys, kids, keys', kids', i + 1, j + 1);
    }
  }

  /** Replacing one kid replaces its stretch of the weave. */
  lemma WeaveReplace(keys: seq<int>, kids: seq<Tree>, i: nat, kid: Tree)
    requires |kids| == |keys| + 1 && i < |kids|
    ensures Weave(keys, kids[i := kid]) == Before(keys, kids, i) + Flat(kid) + After(keys, kids, i)
  {
    WeaveAt(keys, kids[i := kid], i);
    BeforeSame(keys, kids, keys, kids[i := kid], i);
    AfterSame(keys, kids, keys, kids[i := kid], i, i);
  }

  // ----- splitting a full kid

  ghost function LeftHalf(kid: Tree, t: nat): Tree
    requires t >= 1 && |kid.keys| == 2 * t - 1 && (kid.kids == [] || |kid.kids| == 2 * t)
  {
    Tree(kid.id, kid.keys[..t - 1], if kid.kids == [] then [] else kid.kids[..t])
  }

  ghost function RightHalf(kid: Tree, t: nat, id: int): Tree
    requires t >= 1 && |kid.keys| == 2 * t - 1 && (kid.kids == [] || |kid.kids| == 2 * t)
  {
    Tree(id, kid.keys[t..], if kid.kids == [] then [] else kid.kids[t..])
  }

  ghost predicate CanSplit(tr: Tree, pos: nat, t: nat) {
    t >= 1 && |tr.kids| == |tr.keys| + 1 && pos < |tr.kids|
    && |tr.kids[pos].keys| == 2 * t - 1 && (tr.kids[pos].kids == [] || |tr.kids[pos].kids| == 2 * t)
  }

  /** The median goes up to the parent, the upper half to a new node. */
  ghost function SplitTree(tr: Tree, pos: nat, t: nat, id: int): Tree
    requires CanSplit(tr, pos, t)
  {
    var kid := tr.kids[pos];
    Tree(tr.id, tr.keys[..pos] + [kid.keys[t - 1]] + tr.keys[pos..],
         tr.kids[..pos] + [LeftHalf(kid, t), RightHalf(kid, t, id)] + tr.kids[pos + 1..])
  }

  // ----- the nodes that an insertion needs

  /** The place after the last of the keys that is not greater than the given one. */
  ghost function Place(keys: seq<int>, key: int): (i: nat)
    ensures i <= |keys|
  {
    if keys == [] then 0 else if keys[|keys| - 1] <= key then |keys| else Place(keys[..|keys| - 1], key)
  }

  lemma {:induction false} PlaceIs(keys: seq<int>, key: int, i: nat)
    requires i <= |keys| && (i == 0 || keys[i - 1] <= key) && forall j :: i <= j < |keys| ==> key < keys[j]
    ensures Place(keys, key) == i
  {
    if i < |keys| {
      PlaceIs(keys[..|keys| - 1], key, i);
    }
  }

  ghost predicate Full(kid: Tree, t: nat) {
    t >= 1 && |kid.keys| == 2 * t - 1 && (kid.kids == [] || |kid.kids| == 2 * t)
  }

  /** The half of a split kid that the key goes to. */
  ghost function HalfFor(kid: Tree, key: int, t: nat): Tree
    requires Full(kid, t)
  {
    if kid.keys[t - 1] < key then RightHalf(kid, t, kid.id) else LeftHalf(kid, t)
  }

  /** The number of full nodes that a key meets on its way down below a node of height h: each is split. */
  ghost function Splits(tr: Tree, key: int, t: nat, h: nat): nat
    decreases h
  {
    var i := Place(tr.keys, key);
    if h <= 1 || i >= |tr.kids| then 0
    else if Full(tr.kids[i], t) then 1 + Splits(HalfFor(tr.kids[i], key, t), key, t, h - 1)
    else Splits(tr.kids[i], key, t, h - 1)
  }

  lemma {:induction false} SplitsSame(a: Tree, b: Tree, key: int, t: nat, h: nat)
    requires a.keys == b.keys && a.kids == b.kids
    ensures Splits(a, key, t, h) == Splits(b, key, t, h)
  {}

  /** There is at most one for every level below. */
  lemma {:induction false} SplitsBound(tr: Tree, key: int, t: nat, h: nat)
    requires h >= 1
    ensures Splits(tr, key, t, h) <= h - 1
    decreases h
  {
    hide HalfFor;
    var i := Place(tr.keys, key);
    if h > 1 && i < |tr.kids| {
      if Full(tr.kids[i], t) {
        SplitsBound(HalfFor(tr.kids[i], key, t), key, t, h - 1);
      } else {
        SplitsBound(tr.kids[i], key, t, h - 1);
      }
    }
  }

  /** Splitting the full kid on the way is the first of these splits; the way goes on in one of its halves. */
  lemma {:induction false} SplitsStep(tr: Tree, key: int, t: nat, h: nat, i: nat, id: int)
    requires CanSplit(tr, i, t) && i == Place(tr.keys, key) && h > 1
    ensures var s, m := SplitTree(tr, i, t, id), tr.kids[i].keys[t - 1];
            i + 1 < |s.kids| && Splits(tr, key, t, h) == 1 + Splits(s.kids[if m < key then i + 1 else i], key, t, h - 1)
  {
    hide Splits;
    var kid, s := tr.kids[i], SplitTree(tr, i, t, id);
    assert s.kids[i] == LeftHalf(kid, t) && s.kids[i + 1] == RightHalf(kid, t, id);
    SplitsFull(tr, key, t, h);
    SplitsSame(RightHalf(kid, t, id), RightHalf(kid, t, kid.id), key, t, h - 1);
  }

  lemma {:induction false} SplitsFull(tr: Tree, key: int, t: nat, h: nat)
    requires h > 1 && Place(tr.keys, key) < |tr.kids|
    ensures var kid := tr.kids[Place(tr.keys, key)];
            Splits(tr, key, t, h) == if Full(kid, t) then 1 + Splits(HalfFor(kid, key, t), key, t, h - 1)
                                     else Splits(kid, key, t, h - 1)
  {}

  lemma {:induction false} SplitsLeaf(tr: Tree, key: int, t: nat)
    ensures Splits(tr, key, t, 1) == 0
  {}

  /** A new root over two halves: the key goes to the right one if it is the median or above. */
  lemma {:induction false} SplitsRoot(tr: Tree, was: Tree, key: int, t: nat, h: nat, id: int)
    requires Full(was, t) && t >= 2 && h > 1
    requires tr.keys == [was.keys[t - 1]] && tr.kids == [LeftHalf(was, t), RightHalf(was, t, id)]
    ensures Splits(tr, key, t, h) == RootSplits(was, key, t, h - 1)
  {
    hide Splits;
    PlaceIs(tr.keys, key, if was.keys[t - 1] <= key then 1 else 0);
    SplitsFull(tr, key, t, h);
    SplitsSame(RightHalf(was, t, id), RightHalf(was, t, was.id), key, t, h - 1);
  }

  ghost function RootSplits(tr: Tree, key: int, t: nat, h: nat): nat
    requires Full(tr, t)
  {
    Splits(if tr.keys[t - 1] <= key then RightHalf(tr, t, tr.id) else LeftHalf(tr, t), key, t, h)
  }

  // ----- the keys of a split tree

  lemma Regroup(b: seq<int>, l: seq<int>, m: seq<int>, r: seq<int>, a: seq<int>)
    ensures (b + l) + (m + r + a) == b + (l + m + r) + a
  {}

  /** Splitting a node around its median does not move any key in order. */
  lemma HalvesFlat(kid: Tree, t: nat, id: int)
    requires t >= 1 && |kid.keys| == 2 * t - 1 && (kid.kids == [] || |kid.kids| == 2 * t)
    ensures Flat(kid) == Flat(LeftHalf(kid, t)) + [kid.keys[t - 1]] + Flat(RightHalf(kid, t, id))
  {
    hide Weave, Before, After, Flat;
    var l, r := LeftHalf(kid, t), RightHalf(kid, t, id);
    FlatIs(kid);
    FlatIs(l);
    FlatIs(r);
    if kid.kids == [] {
      assert kid.keys == kid.keys[..t - 1] + [kid.keys[t - 1]] + kid.keys[t..];
    } else {
      HalvesWeave(kid.keys, kid.kids, t);
    }
  }

  lemma {:induction false} HalvesWeave(keys: seq<int>, kids: seq<Tree>, t: nat)
    requires t >= 1 && |keys| == 2 * t - 1 && |kids| == 2 * t
    ensures Weave(keys, kids) == Weave(keys[..t - 1], kids[..t]) + [keys[t - 1]] + Weave(keys[t..], kids[t..])
  {
    hide Weave, Before, After, Flat;
    var b, m, a := Before(keys, kids, t - 1), Flat(kids[t - 1]), After(keys, kids, t);
    WeaveAt(keys, kids, t - 1);
    AfterStep(keys, kids, t - 1);
    LowerWeave(keys, kids, t - 1);
    UpperWeave(keys, kids, t);
    RegroupHalves(b, m, [keys[t - 1]], Flat(kids[t]), a);
  }

  lemma {:induction false} LowerWeave(keys: seq<int>, kids: seq<Tree>, i: nat)
    requires i <= |keys| && |kids| == |keys| + 1
    ensures Weave(keys[..i], kids[..i + 1]) == Before(keys, kids, i) + Flat(kids[i])
  {
    hide Weave, Before, Flat;
    WeaveAt(keys[..i], kids[..i + 1], i);
    BeforeSame(keys, kids, keys[..i], kids[..i + 1], i);
    AfterStep(keys[..i], kids[..i + 1], i);
  }

  lemma {:induction false} UpperWeave(keys: seq<int>, kids: seq<Tree>, i: nat)
    requires i <= |keys| && |kids| == |keys| + 1
    ensures Weave(keys[i..], kids[i..]) == Flat(kids[i]) + After(keys, kids, i)
  {
    hide Weave, After, Flat;
    WeaveFront(keys[i..], kids[i..]);
    AfterSame(keys, kids, keys[i..], kids[i..], i, 0);
  }

  lemma RegroupHalves(b: seq<int>, l: seq<int>, m: seq<int>, r: seq<int>, a: seq<int>)
    ensures b + l + (m + r + a) == (b + l) + m + (r + a)
  {}

  lemma FlatIs(tr: Tree)
    ensures Flat(tr) == if tr.kids == [] then tr.keys else Weave(tr.keys, tr.kids)
  {}

  lemma AfterStep(keys: seq<int>, kids: seq<Tree>, i: nat)
    requires i <= |keys| && |kids| == |keys| + 1
    ensures After(keys, kids, i) == if i == |keys| then [] else [keys[i]] + Flat(kids[i + 1]) + After(keys, kids, i + 1)
  {}

  lemma {:induction false} SplitFlat(tr: Tree, pos: nat, t: nat, id: int)
    requires CanSplit(tr, pos, t)
    ensures Flat(SplitTree(tr, pos, t, id)) == Flat(tr)
  {
    hide Weave, Before, After, Flat, LeftHalf, RightHalf;
    var kid, s := tr.kids[pos], SplitTree(tr, pos, t, id);
    var l, r := LeftHalf(kid, t), RightHalf(kid, t, id);
    var b, a := Before(tr.keys, tr.kids, pos), After(tr.keys, tr.kids, pos);
    FlatIs(tr);
    FlatIs(s);
    HalvesFlat(kid, t, id);
    WeaveAt(tr.keys, tr.kids, pos);
    SplitWeave(tr.keys, tr.kids, s.keys, s.kids, pos, l, kid.keys[t - 1], r);
    Regroup(b, Flat(l), [kid.keys[t - 1]], Flat(r), a);
  }

  /** Kid pos replaced by two kids with a key between them. */
  lemma {:induction false} SplitWeave(keys: seq<int>, kids: seq<Tree>, keys': seq<int>, kids': seq<Tree>, pos: nat,
                                      l: Tree, m: int, r: Tree)
    requires |kids| == |keys| + 1 && pos < |kids|
    requires keys' == keys[..pos] + [m] + keys[pos..] && kids' == kids[..pos] + [l, r] + kids[pos + 1..]
    ensures Weave(keys', kids') == (Before(keys, kids, pos) + Flat(l)) + ([m] + Flat(r) + After(keys, kids, pos))
  {
    hide Weave, Before, After, Flat;
    WeaveAt(keys', kids', pos);
    BeforeSame(keys, kids, keys', kids', pos);
    assert keys'[pos + 1..] == keys[pos..] && kids'[pos + 2..] == kids[pos + 1..];
    AfterSame(keys, kids, keys', kids', pos, pos + 1);
    AfterStep(keys', kids', pos);
  }

  // ----- pool indices

  ghost function Ids(tr: Tree): multiset<int>
    decreases tr
  {
    multiset{tr.id} + IdsOf(tr.kids)
  }

  ghost function IdsOf(kids: seq<Tree>): multiset<int>
    decreases kids
  {
    if kids == [] then multiset{} else Ids(kids[0]) + IdsOf(kids[1..])
  }

  lemma {:induction false} IdsConcat(a: seq<Tree>, b: seq<Tree>)
    ensures IdsOf(a + b) == IdsOf(a) + IdsOf(b)
  {
    hide Ids;
    if a == [] {
      assert a + b == b;
    } else {
      IdsConcat(a[1..], b);
      assert (a + b)[1..] == a[1..] + b;
      assert (a + b)[0] == a[0];
    }
  }

  lemma IdsAt(kids: seq<Tree>, i: nat)
    requires i < |kids|
    ensures IdsOf(kids) == IdsOf(kids[..i]) + Ids(kids[i]) + IdsOf(kids[i + 1..])
  {
    hide Ids, IdsOf;
    assert kids == kids[..i] + ([kids[i]] + kids[i + 1..]);
    IdsConcat(kids[..i], [kids[i]] + kids[i + 1..]);
    IdsConcat([kids[i]], kids[i + 1..]);
    IdsOne(kids[i]);
  }

  lemma IdsOne(kid: Tree)
    ensures IdsOf([kid]) == Ids(kid)
  {
    assert IdsOf([]) == multiset{};
  }

  lemma IdsIs(tr: Tree)
    ensures Ids(tr) == multiset{tr.id} + IdsOf(tr.kids)
  {}

  /** The indices of distinct kids, and of the node itself, are counted separately. */
  lemma IdsApart(tr: Tree, i: nat, j: nat, x: int)
    requires i < |tr.kids| && j < |tr.kids|
    ensures (if x == tr.id then 1 else 0) + Ids(tr.kids[i])[x] <= Ids(tr)[x]
    ensures i != j ==> Ids(tr.kids[i])[x] + Ids(tr.kids[j])[x] <= Ids(tr)[x]
  {
    hide Ids, IdsOf;
    IdsIs(tr);
    IdsAt(tr.kids, i);
    if j < i {
      IdsAt(tr.kids[..i], j);
    } else if i < j {
      IdsAt(tr.kids[i + 1..], j - i - 1);
    }
  }

  lemma IdsReplace(tr: Tree, i: nat, kid: Tree)
    requires i < |tr.kids|
    ensures Ids(tr.(kids := tr.kids[i := kid])) + Ids(tr.kids[i]) == Ids(tr) + Ids(kid)
  {
    hide Ids, IdsOf;
    var ks := tr.kids[i := kid];
    IdsIs(tr);
    IdsIs(tr.(kids := ks));
    IdsAt(tr.kids, i);
    IdsAt(ks, i);
    assert ks[..i] == tr.kids[..i] && ks[i + 1..] == tr.kids[i + 1..];
  }

  lemma SplitIds(tr: Tree, pos: nat, t: nat, id: int)
    requires CanSplit(tr, pos, t)
    ensures Ids(SplitTree(tr, pos, t, id)) == Ids(tr) + multiset{id}
  {
    hide Ids, IdsOf, LeftHalf, RightHalf;
    var kid := tr.kids[pos];
    var l, r := LeftHalf(kid, t), RightHalf(kid, t, id);
    IdsIs(tr);
    IdsIs(SplitTree(tr, pos, t, id));
    IdsAt(tr.kids, pos);
    IdsConcat(tr.kids[..pos] + [l, r], tr.kids[pos + 1..]);
    IdsConcat(tr.kids[..pos], [l, r]);
    assert [l, r] == [l] + [r];
    IdsConcat([l], [r]);
    IdsOne(l);
    IdsOne(r);
    HalvesIds(kid, t, id);
  }

  lemma HalvesIds(kid: Tree, t: nat, id: int)
    requires t >= 1 && |kid.keys| == 2 * t - 1 && (kid.kids == [] || |kid.kids| == 2 * t)
    ensures Ids(LeftHalf(kid, t)) + Ids(RightHalf(kid, t, id)) == Ids(kid) + multiset{id}
  {
    hide Ids, IdsOf;
    var l, r := LeftHalf(kid, t), RightHalf(kid, t, id);
    IdsIs(kid);
    IdsIs(l);
    IdsIs(r);
    if kid.kids == [] {
      IdsConcat([], []);
      assert [] + [] == l.kids;
      assert IdsOf([]) + IdsOf([]) == IdsOf([]);
    } else {
      IdsConcat(kid.kids[..t], kid.kids[t..]);
      assert kid.kids == kid.kids[..t] + kid.kids[t..];
    }
  }

  /** ids' is ids and the freshly allocated range [lo, hi). */
  ghost predicate Grown(ids: multiset<int>, ids': multiset<int>, lo: int, hi: int) {
    forall x :: ids'[x] == ids[x] + if lo <= x < hi then 1 else 0
  }

  /** All indices are allocated and none occurs twice. */
  ghost predicate Allocated(ids: multiset<int>, free: int) {
    forall x :: ids[x] <= if 0 <= x < free then 1 else 0
  }

  // ----- shape

  /**
   A B-tree of order t and height h: leaves all at depth h, one kid more than keys, t-1 to 2t-1
   keys in every node below the root and at least `least` in the root.
   */
  ghost predicate Shape(tr: Tree, t: nat, h: nat, least: nat)
    decreases h
  {
    && least <= |tr.keys| <= 2 * t - 1 && h >= 1
    && (if h == 1 then tr.kids == []
        else |tr.kids| == |tr.keys| + 1 && forall i :: 0 <= i < |tr.kids| ==> Shape(tr.kids[i], t, h - 1, t - 1))
  }

  lemma SplitShape(tr: Tree, pos: nat, t: nat, h: nat, least: nat, id: int)
    requires t >= 2 && Shape(tr, t, h, least) && |tr.keys| < 2 * t - 1 && CanSplit(tr, pos, t)
    ensures Shape(SplitTree(tr, pos, t, id), t, h, least)
    ensures |SplitTree(tr, pos, t, id).keys| == |tr.keys| + 1
  {
    var s := SplitTree(tr, pos, t, id);
    var kid := tr.kids[pos];
    forall i | 0 <= i < |s.kids|
      ensures Shape(s.kids[i], t, h - 1, t - 1)
    {
      if i < pos {
        assert s.kids[i] == tr.kids[i];
      } else if i > pos + 1 {
        assert s.kids[i] == tr.kids[i - 1];
      }
    }
  }

  lemma {:induction false} ReplaceShape(tr: Tree, i: nat, kid: Tree, t: nat, h: nat, least: nat)
    requires Shape(tr, t, h, least) && h > 1 && i < |tr.kids| && Shape(kid, t, h - 1, t - 1)
    ensures Shape(tr.(kids := tr.kids[i := kid]), t, h, least)
  {}

  // ----- order

  ghost predicate Sorted(s: seq<int>) {
    forall i, j :: 0 <= i < j < |s| ==> s[i] <= s[j]
  }

  lemma SortedJoin(a: seq<int>, b: seq<int>)
    ensures Sorted(a + b) <==> Sorted(a) && Sorted(b) && forall x, y :: x in a && y in b ==> x <= y
  {
    var s := a + b;
    if Sorted(s) {
      forall i, j | 0 <= i < j < |a|
        ensures a[i] <= a[j]
      {
        assert a[i] == s[i] && a[j] == s[j];
      }
      forall i, j | 0 <= i < j < |b|
        ensures b[i] <= b[j]
      {
        assert b[i] == s[|a| + i] && b[j] == s[|a| + j];
      }
      forall x, y | x in a && y in b
        ensures x <= y
      {
        var i :| 0 <= i < |a| && a[i] == x;
        var j :| 0 <= j < |b| && b[j] == y;
        assert s[i] == x && s[|a| + j] == y;
      }
    }
    if Sorted(a) && Sorted(b) && forall x, y :: x in a && y in b ==> x <= y {
      forall i, j | 0 <= i < j < |s|
        ensures s[i] <= s[j]
      {
        if i < |a| <= j {
          assert s[i] in a && s[j] in b;
        }
      }
    }
  }

  /** Putting a key into the middle stretch keeps the whole sorted if the neighbours allow it. */
  lemma SortedMiddle(a: seq<int>, m: seq<int>, m': seq<int>, c: seq<int>, key: int)
    requires Sorted(a + m + c) && Sorted(m') && multiset(m') == multiset(m) + multiset{key}
    requires a == [] || a[|a| - 1] <= key
    requires c == [] || key <= c[0]
    ensures Sorted(a + m' + c)
  {
    SortedJoin(a + m, c);
    SortedJoin(a, m);
    forall x | x in m'
      ensures x in m || x == key
    {
      assert x in multiset(m');
      assert x in multiset(m) + multiset{key};
    }
    forall x | x in a
      ensures x <= key
    {
      LastIsGreatest(a, x);
    }
    forall y | y in c
      ensures key <= y
    {
      FirstIsLeast(c, y);
    }
    SortedJoin(a, m');
    forall x, y | x in a + m' && y in c
      ensures x <= y
    {
      if x in m {
        assert x in a + m;
      }
    }
    SortedJoin(a + m', c);
  }

  lemma LastIsGreatest(s: seq<int>, x: int)
    requires Sorted(s) && x in s
    ensures x <= s[|s| - 1]
  {}

  lemma FirstIsLeast(s: seq<int>, x: int)
    requires Sorted(s) && x in s
    ensures s[0] <= x
  {}

  lemma Extremes(s: seq<int>)
    requires Sorted(s) && s != []
    ensures forall x :: x in s ==> s[0] <= x <= s[|s| - 1]
  {
    forall x | x in s
      ensures s[0] <= x <= s[|s| - 1]
    {
      FirstIsLeast(s, x);
      LastIsGreatest(s, x);
    }
  }

  // ----- what the pool represents

  ghost predicate Rep(ns: seq<Node>, tr: Tree, t: nat)
    decreases tr
  {
    && 0 <= tr.id < |ns|
    && var n := ns[tr.id];
    && n.nKeys == |tr.keys| <= |n.keys| == 2 * t - 1 && |n.children| == 2 * t
    && n.keys[..n.nKeys] == tr.keys
    && (n.isLeaf <==> tr.kids == [])
    && (tr.kids != [] ==> |tr.kids| == n.nKeys + 1)
    && forall j :: 0 <= j < |tr.kids| ==> n.children[j] == tr.kids[j].id && Rep(ns, tr.kids[j], t)
  }

  lemma {:induction false} KidIds(tr: Tree, j: nat)
    requires j < |tr.kids|
    ensures Ids(tr.kids[j]) <= Ids(tr)
  {
    IdsAt(tr.kids, j);
  }

  /** A tree is not affected by changes to slots outside it. */
  lemma {:induction false} RepFrame(ns: seq<Node>, ns': seq<Node>, tr: Tree, t: nat)
    requires Rep(ns, tr, t) && |ns'| == |ns|
    requires forall x :: 0 <= x < |ns| && Ids(tr)[x] > 0 ==> ns'[x] == ns[x]
    ensures Rep(ns', tr, t)
    decreases tr
  {
    forall j | 0 <= j < |tr.kids|
      ensures Rep(ns', tr.kids[j], t)
    {
      KidIds(tr, j);
      RepFrame(ns, ns', tr.kids[j], t);
    }
  }

  /** Replacing a kid by a tree grown in its place. */
  lemma RepReplace(ns: seq<Node>, ns': seq<Node>, tr: Tree, j: nat, kid: Tree, t: nat, free: int)
    requires Rep(ns, tr, t) && |ns'| == |ns| && j < |tr.kids| && Allocated(Ids(tr), free)
    requires Rep(ns', kid, t) && kid.id == tr.kids[j].id
    requires forall x :: 0 <= x < |ns| && x < free && Ids(tr.kids[j])[x] == 0 ==> ns'[x] == ns[x]
    ensures Rep(ns', tr.(kids := tr.kids[j := kid]), t)
  {
    hide Ids;
    IdsApart(tr, j, j, tr.id);
    IdsSelf(tr);
    forall i | 0 <= i < |tr.kids| && i != j
      ensures Rep(ns', tr.kids[i], t)
    {
      forall x | 0 <= x < |ns| && Ids(tr.kids[i])[x] > 0
        ensures ns'[x] == ns[x]
      {
        IdsApart(tr, i, j, x);
        KidIds(tr, i);
      }
      RepFrame(ns, ns', tr.kids[i], t);
    }
  }

  lemma IdsSelf(tr: Tree)
    ensures Ids(tr)[tr.id] >= 1
  {}

  lemma GrownReplace(tr: Tree, j: nat, kid: Tree, lo: int, hi: int)
    requires j < |tr.kids| && Grown(Ids(tr.kids[j]), Ids(kid), lo, hi)
    ensures Grown(Ids(tr), Ids(tr.(kids := tr.kids[j := kid])), lo, hi)
  {
    hide Ids;
    IdsReplace(tr, j, kid);
    var m := Ids(tr.(kids := tr.kids[j := kid]));
    forall x
      ensures m[x] == Ids(tr)[x] + if lo <= x < hi then 1 else 0
    {
      assert (m + Ids(tr.kids[j]))[x] == (Ids(tr) + Ids(kid))[x];
    }
  }

  /** A key put into kid j, between the separators around it, is put into the whole. */
  lemma {:induction false} InsertFlat(tr: Tree, j: nat, kid: Tree, key: int)
    requires |tr.kids| == |tr.keys| + 1 && j < |tr.kids| && Sorted(Flat(tr))
    requires j == 0 || tr.keys[j - 1] <= key
    requires j == |tr.keys| || key <= tr.keys[j]
    requires Sorted(Flat(kid)) && multiset(Flat(kid)) == multiset(Flat(tr.kids[j])) + multiset{key}
    ensures var r := tr.(kids := tr.kids[j := kid]);
            Sorted(Flat(r)) && multiset(Flat(r)) == multiset(Flat(tr)) + multiset{key}
  {
    hide Weave, Flat, Sorted, Before, After;
    FlatIs(tr);
    FlatIs(tr.(kids := tr.kids[j := kid]));
    WeaveAt(tr.keys, tr.kids, j);
    WeaveReplace(tr.keys, tr.kids, j, kid);
    AfterStep(tr.keys, tr.kids, j);
    BeforeStep(tr.keys, tr.kids, j);
    var a, c := Before(tr.keys, tr.kids, j), After(tr.keys, tr.kids, j);
    SortedMiddle(a, Flat(tr.kids[j]), Flat(kid), c, key);
    MiddleGrown(a, Flat(tr.kids[j]), Flat(kid), c, key);
  }

  lemma MiddleGrown(a: seq<int>, m: seq<int>, m': seq<int>, c: seq<int>, key: int)
    requires multiset(m') == multiset(m) + multiset{key}
    ensures multiset(a + m' + c) == multiset(a + m + c) + multiset{key}
  {}

  lemma KidSorted(tr: Tree, j: nat)
    requires |tr.kids| == |tr.keys| + 1 && j < |tr.kids| && Sorted(Flat(tr))
    ensures Sorted(Flat(tr.kids[j]))
  {
    hide Weave, Flat, Sorted, After, Before;
    FlatIs(tr);
    WeaveAt(tr.keys, tr.kids, j);
    SortedJoin(Before(tr.keys, tr.kids, j) + Flat(tr.kids[j]), After(tr.keys, tr.kids, j));
    SortedJoin(Before(tr.keys, tr.kids, j), Flat(tr.kids[j]));
  }

  /** The separators of a sorted tree are sorted. */
  lemma {:induction false} KeysSorted(tr: Tree, i: nat, j: nat)
    requires (tr.kids == [] || |tr.kids| == |tr.keys| + 1) && i < j < |tr.keys| && Sorted(Flat(tr))
    ensures tr.keys[i] <= tr.keys[j]
  {
    hide Weave, Flat, After, Before;
    FlatIs(tr);
    if tr.kids != [] {
      WeaveAt(tr.keys, tr.kids, j);
      BeforeStep(tr.keys, tr.kids, i + 1);
      BeforeHas(tr.keys, tr.kids, i, j);
      AfterStep(tr.keys, tr.kids, j);
      var a, c := Before(tr.keys, tr.kids, j) + Flat(tr.kids[j]), After(tr.keys, tr.kids, j);
      SortedJoin(a, c);
      assert tr.keys[i] in a && tr.keys[j] in c;
    }
  }

  /** Every key below kid i lies between the separators around it. */
  lemma {:induction false} Separated(tr: Tree, i: nat, x: int)
    requires |tr.kids| == |tr.keys| + 1 && i < |tr.kids| && Sorted(Flat(tr)) && x in Flat(tr.kids[i])
    ensures (i == 0 || tr.keys[i - 1] <= x) && (i == |tr.keys| || x <= tr.keys[i])
  {
    hide Weave, Flat, Sorted, After, Before;
    FlatIs(tr);
    WeaveAt(tr.keys, tr.kids, i);
    AfterStep(tr.keys, tr.kids, i);
    BeforeStep(tr.keys, tr.kids, i);
    var b, k, a := Before(tr.keys, tr.kids, i), Flat(tr.kids[i]), After(tr.keys, tr.kids, i);
    SortedJoin(b + k, a);
    SortedJoin(b, k);
    assert x in b + k;
    if i > 0 {
      assert tr.keys[i - 1] in b;
    }
    if i < |tr.keys| {
      assert tr.keys[i] in a;
    }
  }

  lemma BeforeStep(keys: seq<int>, kids: seq<Tree>, i: nat)
    requires i <= |keys| && i <= |kids|
    ensures Before(keys, kids, i)
            == if i == 0 then [] else Before(keys, kids, i - 1) + Flat(kids[i - 1]) + [keys[i - 1]]
  {}

  lemma {:induction false} BeforeHas(keys: seq<int>, kids: seq<Tree>, i: nat, j: nat)
    requires i < j <= |keys| && j <= |kids|
    ensures keys[i] in Before(keys, kids, j)
  {
    hide Flat, Before;
    BeforeStep(keys, kids, j);
    if i < j - 1 {
      BeforeHas(keys, kids, i, j - 1);
    }
  }

  // ----- the pool

  ghost predicate Sized(ns: seq<Node>, t: nat) {
    forall i :: 0 <= i < |ns| ==> |ns[i].keys| == 2 * t - 1 && |ns[i].children| == 2 * t
  }

  /** Move s[lo..hi) up by one place, from the top down; place lo keeps its old value. */
  method ShiftUp(s: seq<int>, lo: nat, hi: nat) returns (r: seq<int>)
    requires lo <= hi < |s|
    ensures r == s[..lo] + [s[lo]] + s[lo..hi] + s[hi + 1..]
  {
    r := s;
    var i := hi;
    while i > lo
      invariant lo <= i <= hi && r == s[..i] + [s[i]] + s[i..hi] + s[hi + 1..]
    {
      r := r[i := r[i - 1]];
      i := i - 1;
    }
  }

  lemma ShiftedUp(s: seq<int>, lo: nat, hi: nat, r: seq<int>, x: int)
    requires lo <= hi < |s| && r == s[..lo] + [s[lo]] + s[lo..hi] + s[hi + 1..]
    ensures r[lo := x][..hi + 1] == s[..lo] + [x] + s[lo..hi]
  {}

  /** Make room for `key` among the first n keys: the greater ones move up, from the last one down. */
  method PlaceKey(s: seq<int>, n: nat, key: int) returns (r: seq<int>, ghost p: nat)
    requires n < |s|
    ensures p <= n && r == s[..p] + [key] + s[p..n] + s[n + 1..]
    ensures (p == 0 || s[p - 1] <= key) && (p == n || key < s[p])
    ensures |r| == |s| && multiset(r[..n + 1]) == multiset(s[..n]) + multiset{key}
    ensures Sorted(s[..n]) ==> Sorted(r[..n + 1])
  {
    hide Sorted;
    r := s;
    var i: int := n - 1;
    while i >= 0 && r[i] > key
      invariant -1 <= i < n && |r| == |s|
      invariant forall j :: 0 <= j <= i || n < j < |s| ==> r[j] == s[j]
      invariant forall j :: i + 1 < j <= n ==> r[j] == s[j - 1]
      invariant i + 1 == n || key < s[i + 1]
    {
      r := r[i + 1 := r[i]];
      i := i - 1;
    }
    p := i + 1;
    ghost var moved := r;
    r := r[i + 1 := key];
    KeyPlaced(s, moved, n, p, key);
    PlacedKey(s, r, n, p, key);
  }

  lemma KeyPlaced(s: seq<int>, moved: seq<int>, n: nat, p: nat, key: int)
    requires p <= n < |s| == |moved|
    requires forall j :: 0 <= j < p || n < j < |s| ==> moved[j] == s[j]
    requires forall j :: p < j <= n ==> moved[j] == s[j - 1]
    ensures moved[p := key] == s[..p] + [key] + s[p..n] + s[n + 1..]
  {}

  lemma PlacedKey(s: seq<int>, r: seq<int>, n: nat, p: nat, key: int)
    requires p <= n < |s| && r == s[..p] + [key] + s[p..n] + s[n + 1..]
    requires (p == 0 || s[p - 1] <= key) && (p == n || key < s[p])
    ensures multiset(r[..n + 1]) == multiset(s[..n]) + multiset{key}
    ensures Sorted(s[..n]) ==> Sorted(r[..n + 1])
  {
    hide Sorted;
    var a, c := s[..p], s[p..n];
    assert s[..n] == a + [] + c && r[..n + 1] == a + [key] + c;
    if Sorted(s[..n]) {
      LeafSorted(a, c, key);
    }
  }

  class Btree {
    const t: nat
    const nodes: array<Node>
    var root: int
    var nNodes: nat
    var nextFree: nat
    ghost var tree: Tree
    ghost var height: nat

    /** An empty tree of order `order` over a pool of `max` nodes. */
    constructor (order: nat, max: nat)
      requires 2 <= order <= 127 && max <= 255
      ensures Valid() && Contents() == [] && root == NONE && t == order && nodes.Length == max
    {
      t := order;
      nodes := new Node[max](_ => Blank(order));
      root, nNodes, nextFree := NONE, 0, 0;
      tree, height := Tree(NONE, [], []), 0;
    }

    /** The state between two calls. Only a root left behind by a refused root split has no key. */
    ghost predicate Valid()
      reads this, nodes
    {
      && Pool()
      && (root == NONE <==> nextFree == 0)
      && (root != NONE ==>
            && Sub(nodes[..], tree, t, height, 0, nextFree) && tree.id == root
            && Covers(Ids(tree), nextFree)
            && (tree.keys == [] ==> nextFree == nodes.Length && |tree.kids| == 1 && |tree.kids[0].keys| == 2 * t - 1))
    }

    /** All keys, in order. */
    ghost function Contents(): seq<int>
      reads this
    {
      if root == NONE then [] else Flat(tree)
    }

    /** What every operation on the pool relies on. */
    ghost predicate Pool()
      reads this, nodes
    {
      2 <= t <= 127 && nodes.Length <= 255 && nextFree == nNodes <= nodes.Length && Sized(nodes[..], t)
    }

    method AllocNode() returns (idx: int)
      requires Pool()
      modifies this`nextFree, this`nNodes, nodes
      ensures Pool()
      ensures idx == if old(nextFree) >= nodes.Length then NONE else old(nextFree)
      ensures nextFree == if idx == NONE then old(nextFree) else old(nextFree) + 1
      ensures idx != NONE ==> nodes[idx].nKeys == 0 && nodes[idx].isLeaf
      ensures forall x :: 0 <= x < nodes.Length && x != idx ==> nodes[x] == old(nodes[x])
    {
      if nextFree >= nodes.Length {
        return NONE;
      }
      idx := nextFree;
      nextFree := nextFree + 1;
      nNodes := nNodes + 1;
      nodes[idx] := Node(seq(2 * t - 1, _ => 0), seq(2 * t, _ => NONE), 0, true);
    }

    /** Copy the upper keys of `child` to the new node `slot`. */
    method MoveKeys(child: int, slot: int)
      requires Pool() && 0 <= child < nodes.Length && 0 <= slot < nodes.Length && child != slot
      modifies nodes
      ensures Pool()
      ensures forall x :: 0 <= x < nodes.Length && x != slot ==> nodes[x] == old(nodes[x])
      ensures nodes[slot] == old(nodes[slot]).(isLeaf := nodes[child].isLeaf, keys := nodes[slot].keys, nKeys := t - 1)
      ensures nodes[slot].keys[..t - 1] == nodes[child].keys[t..]
    {
      ghost var ns := nodes[..];
      nodes[slot] := nodes[slot].(isLeaf := nodes[child].isLeaf);
      for i := 0 to t - 1
        invariant Pool() && forall x :: 0 <= x < nodes.Length && x != slot ==> nodes[x] == ns[x]
        invariant nodes[slot] == ns[slot].(isLeaf := ns[child].isLeaf, keys := nodes[slot].keys)
        invariant forall j :: 0 <= j < i ==> nodes[slot].keys[j] == ns[child].keys[t + j]
      {
        nodes[slot] := nodes[slot].(keys := nodes[slot].keys[i := nodes[child].keys[i + t]]);
      }
      nodes[slot] := nodes[slot].(nKeys := t - 1);
    }

    /** Move the upper children of `child` to the new node `slot`. */
    method MoveChildren(child: int, slot: int)
      requires Pool() && 0 <= child < nodes.Length && 0 <= slot < nodes.Length && child != slot
      modifies nodes
      ensures Pool()
      ensures forall x :: 0 <= x < nodes.Length && x != child && x != slot ==> nodes[x] == old(nodes[x])
      ensures nodes[slot] == old(nodes[slot]).(children := nodes[slot].children)
      ensures nodes[child] == old(nodes[child]).(children := nodes[child].children)
      ensures nodes[slot].children[..t] == old(nodes[child].children[t..])
      ensures nodes[child].children[..t] == old(nodes[child].children[..t])
    {
      ghost var ns := nodes[..];
      for i := 0 to t
        invariant Pool() && forall x :: 0 <= x < nodes.Length && x != slot && x != child ==> nodes[x] == ns[x]
        invariant nodes[slot] == ns[slot].(children := nodes[slot].children)
        invariant nodes[child] == ns[child].(children := nodes[child].children)
        invariant forall j :: 0 <= j < i ==> nodes[slot].children[j] == ns[child].children[t + j]
        invariant forall j :: 0 <= j < t || t + i <= j < 2 * t ==> nodes[child].children[j] == ns[child].children[j]
      {
        nodes[slot] := nodes[slot].(children := nodes[slot].children[i := nodes[child].children[i + t]]);
        nodes[child] := nodes[child].(children := nodes[child].children[i + t := NONE]);
      }
    }

    /** Give `parent` the key `median` at `pos` and the child `slot` after it. */
    method Promote(parent: int, pos: nat, median: int, slot: int)
      requires Pool() && 0 <= parent < nodes.Length && pos <= nodes[parent].nKeys < 2 * t - 1
      modifies nodes
      ensures Pool()
      ensures forall x :: 0 <= x < nodes.Length && x != parent ==> nodes[x] == old(nodes[x])
      ensures Promoted(old(nodes[parent]), nodes[parent], pos, median, slot)
    {
      var n := nodes[parent].nKeys;
      var ch := ShiftUp(nodes[parent].children, pos + 1, n + 1);
      nodes[parent] := nodes[parent].(children := ch[pos + 1 := slot]);
      var ks := ShiftUp(nodes[parent].keys, pos, n);
      nodes[parent] := nodes[parent].(keys := ks[pos := median]);
      nodes[parent] := nodes[parent].(nKeys := n + 1);
      ShiftedUp(old(nodes[parent].keys), pos, n, ks, median);
      ShiftedUp(old(nodes[parent].children), pos + 1, n + 1, ch, slot);
    }

    /** Split the full child at `pos` of a non-full parent. Refused, with nothing changed, iff the pool is used up. */
    method SplitChild(parent: int, pos: nat, ghost tr: Tree) returns (rc: Status)
      requires Pool() && Rep(nodes[..], tr, t) && tr.id == parent && CanSplit(tr, pos, t)
      requires |tr.keys| < 2 * t - 1 && Allocated(Ids(tr), nextFree)
      modifies this`nextFree, this`nNodes, nodes
      ensures Pool()
      ensures rc == if old(nextFree) >= nodes.Length then ErrFull else OK
      ensures rc == ErrFull ==> nodes[..] == old(nodes[..]) && nextFree == old(nextFree)
      ensures rc == OK ==> nextFree == old(nextFree) + 1 && Rep(nodes[..], SplitTree(tr, pos, t, old(nextFree)), t)
      ensures forall x :: 0 <= x < nodes.Length && x < old(nextFree) && Ids(tr)[x] == 0 ==> nodes[x] == old(nodes[x])
    {
      hide Ids, Rep, LeftHalf, RightHalf, SplitTree, Promoted;
      ghost var ns := nodes[..];
      RepRoot(ns, tr, t);
      RepRoot(ns, tr.kids[pos], t);
      DistinctIds(tr, pos, nextFree);
      var child := nodes[parent].children[pos];
      var slot := AllocNode();
      if slot == NONE {
        return ErrFull;
      }
      MoveKeys(child, slot);
      if !nodes[child].isLeaf {
        MoveChildren(child, slot);
      }
      nodes[child] := nodes[child].(nKeys := t - 1);
      Promote(parent, pos, nodes[child].keys[t - 1], slot);
      assert SplitSlots(ns[parent], nodes[parent], ns[child], nodes[child], nodes[slot], pos, t, slot);
      SplitRep(ns, nodes[..], tr, pos, t, slot);
      rc := OK;
    }

    /** The child an internal node sends a key to: after the last separator that is not greater. */
    method FindChild(idx: int, key: int) returns (i: nat)
      requires Pool() && 0 <= idx < nodes.Length && nodes[idx].nKeys <= 2 * t - 1
      ensures i <= nodes[idx].nKeys
      ensures i == 0 || nodes[idx].keys[i - 1] <= key
      ensures forall j :: i <= j < nodes[idx].nKeys ==> key < nodes[idx].keys[j]
    {
      var k: int := nodes[idx].nKeys - 1;
      while k >= 0 && nodes[idx].keys[k] > key
        invariant -1 <= k < nodes[idx].nKeys
        invariant forall j :: k < j < nodes[idx].nKeys ==> key < nodes[idx].keys[j]
      {
        k := k - 1;
      }
      i := k + 1;
    }

    /** The leaf case of an insertion. */
    method InsertLeaf(idx: int, key: int, ghost tr: Tree, ghost h: nat, ghost least: nat) returns (ghost tr': Tree)
      requires Pool() && Sub(nodes[..], tr, t, h, least, nextFree) && tr.id == idx && |tr.keys| < 2 * t - 1
      requires tr.kids == []
      modifies nodes
      ensures Pool() && Sub(nodes[..], tr', t, h, least, nextFree)
      ensures Inserted(tr, tr', key, OK, nextFree, nextFree, nodes.Length)
      ensures forall x :: 0 <= x < nodes.Length && Ids(tr)[x] == 0 ==> nodes[x] == old(nodes[x])
    {
      hide Ids, Rep, Sub, Inserted, Shape, Sorted, Flat;
      ghost var ns := nodes[..];
      SubRoot(ns, tr, t, h, least, nextFree);
      IdsSelf(tr);
      var n := nodes[idx].nKeys;
      var ks, p := PlaceKey(nodes[idx].keys, n, key);
      nodes[idx] := nodes[idx].(keys := ks);
      nodes[idx] := nodes[idx].(nKeys := n + 1);
      tr' := tr.(keys := tr.keys[..p] + [key] + tr.keys[p..]);
      LeafInserted(ns, nodes[..], tr, t, h, least, nextFree, nodes.Length, key, p);
    }

    /** Split child i of a node if it is full, and say which child the key now goes to. */
    method MakeRoom(idx: int, key: int, i: nat, ghost tr: Tree, ghost h: nat, ghost least: nat)
      returns (rc: Status, j: nat, ghost s: Tree)
      requires Pool() && Sub(nodes[..], tr, t, h, least, nextFree) && tr.id == idx && |tr.keys| < 2 * t - 1
      requires i < |tr.kids| && (i == 0 || tr.keys[i - 1] <= key) && (i == |tr.keys| || key <= tr.keys[i])
      requires i == Place(tr.keys, key)
      modifies this`nextFree, this`nNodes, nodes
      ensures rc == ErrFull ==> Splits(tr, key, t, h) > 0
      ensures rc == OK ==> j < |s.kids| && h > 1
                           && Splits(tr, key, t, h) == nextFree - old(nextFree) + Splits(s.kids[j], key, t, h - 1)
      ensures Pool() && old(nextFree) <= nextFree && Sub(nodes[..], s, t, h, least, nextFree)
      ensures rc == if |tr.kids[i].keys| == 2 * t - 1 && old(nextFree) >= nodes.Length then ErrFull else OK
      ensures rc == ErrFull ==> s == tr && nextFree == old(nextFree)
      ensures s.id == tr.id && |tr.keys| <= |s.keys| && Flat(s) == Flat(tr)
              && Grown(Ids(tr), Ids(s), old(nextFree), nextFree)
      ensures rc == OK ==> j < |s.kids| == |s.keys| + 1 && |s.kids[j].keys| < 2 * t - 1
      ensures rc == OK ==> (j == 0 || s.keys[j - 1] <= key) && (j == |s.keys| || key <= s.keys[j])
      ensures forall x :: 0 <= x < nodes.Length && x < old(nextFree) && Ids(tr)[x] == 0 ==> nodes[x] == old(nodes[x])
    {
      hide Ids, Rep, Sub, Inserted, Shape, Sorted, Flat, SplitTree, LeftHalf, RightHalf, HalfFor, Splits, Place,
           Allocated;
      ghost var ns, free := nodes[..], nextFree;
      SubRoot(ns, tr, t, h, least, free);
      SubParts(ns, tr, t, h, least, free);
      SubKid(ns, tr, t, h, least, free, i);
      SplitsFull(tr, key, t, h);
      s, j, rc := tr, i, OK;
      if nodes[nodes[idx].children[i]].nKeys == 2 * t - 1 {
        SplitsStep(tr, key, t, h, i, free);
        rc := SplitChild(idx, i, tr);
        if rc != OK {
          return;
        }
        s := SplitTree(tr, i, t, free);
        SubSplit(ns, nodes[..], tr, t, h, least, free, i);
        SubRoot(nodes[..], s, t, h, least, nextFree);
        assert nodes[idx].keys[i] == s.keys[i];
        if key > nodes[idx].keys[i] {
          j := j + 1;
        }
      }
    }

    /**
     Insert below a non-full node. It is refused iff there are fewer free slots than full nodes on the way; splits that
     are then left behind do not change the keys in order.
     */
    method InsertNonfull(idx: int, key: int, ghost tr: Tree, ghost h: nat, ghost least: nat)
      returns (rc: Status, ghost tr': Tree)
      requires Pool() && Sub(nodes[..], tr, t, h, least, nextFree) && tr.id == idx && |tr.keys| < 2 * t - 1
      modifies this`nextFree, this`nNodes, nodes
      ensures Pool() && Sub(nodes[..], tr', t, h, least, nextFree)
      ensures Inserted(tr, tr', key, rc, old(nextFree), nextFree, nodes.Length)
      ensures forall x :: 0 <= x < nodes.Length && x < old(nextFree) && Ids(tr)[x] == 0 ==> nodes[x] == old(nodes[x])
      ensures old(nextFree) == nodes.Length && tr.kids != [] && (forall k :: k in tr.kids ==> |k.keys| == 2 * t - 1)
              ==> rc == ErrFull && tr' == tr
      ensures rc == if Splits(tr, key, t, h) <= nodes.Length - old(nextFree) then OK else ErrFull
      decreases h
    {
      hide Ids, Rep, Sub, Inserted, Shape, Sorted, Flat, Grown, Splits, Place;
      SubRoot(nodes[..], tr, t, h, least, nextFree);
      if nodes[idx].isLeaf {
        SplitsLeaf(tr, key, t);
        tr' := InsertLeaf(idx, key, tr, h, least);
        return OK, tr';
      }
      ghost var free := nextFree;
      var i := FindChild(idx, key);
      PlaceIs(tr.keys, key, i);
      var rc1, j, s := MakeRoom(idx, key, i, tr, h, least);
      if rc1 != OK {
        Refused(tr, key, free);
        return rc1, tr;
      }
      SubRoot(nodes[..], s, t, h, least, nextFree);
      SubKid(nodes[..], s, t, h, least, nextFree, j);
      ghost var mid, midFree, kid := nodes[..], nextFree, s;
      rc, kid := InsertNonfull(nodes[idx].children[j], key, s.kids[j], h - 1, t - 1);
      tr' := s.(kids := s.kids[j := kid]);
      SubReplace(mid, nodes[..], s, j, kid, key, rc, t, h, least, midFree, nextFree, nodes.Length);
      InsertedAfter(tr, s, tr', key, rc, free, midFree, nextFree, nodes.Length);
      KidIdsBelow(tr, s, j, free, midFree);
    }

    /** The first key of an empty tree. */
    method PlantRoot(key: int) returns (rc: Status)
      requires Valid() && root == NONE
      modifies this`root, this`tree, this`height, this`nextFree, this`nNodes, nodes
      ensures Valid() && Sorted(Contents()) && nextFree >= old(nextFree)
      ensures rc == if nodes.Length == 0 then ErrFull else OK
      ensures Contents() == if rc == OK then [key] else []
      ensures rc == ErrFull ==> nextFree == nodes.Length
    {
      hide Ids, Rep, Sub, Shape, Sorted, Flat, Allocated, Covers;
      var idx := AllocNode();
      NoneSorted();
      if idx == NONE {
        return ErrFull;
      }
      root := idx;
      nodes[idx] := nodes[idx].(keys := nodes[idx].keys[0 := key]);
      nodes[idx] := nodes[idx].(nKeys := 1);
      nodes[idx] := nodes[idx].(isLeaf := true);
      tree, height := Tree(0, [key], []), 1;
      FirstKey(nodes[..], t, key);
      rc := OK;
    }

    /** A new root whose only child is the old one. */
    method RaiseRoot() returns (ok: bool)
      requires Valid() && root != NONE && |tree.keys| == 2 * t - 1
      modifies this`root, this`tree, this`height, this`nextFree, this`nNodes, nodes
      ensures Pool() && root != NONE
      ensures ok <==> old(nextFree) < nodes.Length
      ensures ok ==> nextFree == old(nextFree) + 1 && height == old(height) + 1 && tree == Tree(root, [], [old(tree)])
                     && Sub(nodes[..], tree, t, height, 0, nextFree) && Covers(Ids(tree), nextFree)
                     && Flat(tree) == old(Flat(tree))
      ensures !ok ==> nextFree == old(nextFree) && tree == old(tree) && height == old(height) && root == old(root)
                      && nodes[..] == old(nodes[..])
    {
      hide Ids, Rep, Sub, Shape, Sorted, Flat, Allocated, Covers, Grown;
      ghost var free, ns := nextFree, nodes[..];
      var newRoot := AllocNode();
      if newRoot == NONE {
        assert nodes[..] == ns;
        return false;
      }
      nodes[newRoot] := nodes[newRoot].(isLeaf := false);
      nodes[newRoot] := nodes[newRoot].(nKeys := 0);
      nodes[newRoot] := nodes[newRoot].(children := nodes[newRoot].children[0 := root]);
      root := newRoot;
      RootAbove(ns, nodes[..], tree, t, height, free, newRoot);
      tree, height := Tree(newRoot, [], [tree]), height + 1;
      ok := true;
    }

    /** Put a new root above a full one and split the old root, unless the pool is used up in between. */
    method GrowRoot() returns (rc: Status)
      requires Valid() && root != NONE && |tree.keys| == 2 * t - 1
      modifies this`root, this`tree, this`height, this`nextFree, this`nNodes, nodes
      ensures Valid() && root != NONE && Contents() == old(Contents())
      ensures rc == if old(nextFree) + 1 >= nodes.Length then ErrFull else OK
      ensures rc == ErrFull ==> nextFree == nodes.Length
      ensures rc == OK ==> |tree.keys| == 1
      ensures nextFree >= old(nextFree)
      ensures height == if old(nextFree) == nodes.Length then old(height) else old(height) + 1
      ensures rc == OK ==> nextFree == old(nextFree) + 2 && Full(old(tree), t)
      ensures rc == OK ==> tree.keys == [old(tree).keys[t - 1]]
                           && tree.kids == [LeftHalf(old(tree), t), RightHalf(old(tree), t, old(nextFree) + 1)]
    {
      hide Ids, Rep, Sub, Shape, Sorted, Flat, LeftHalf, RightHalf, Allocated, Covers, Grown;
      var raised := RaiseRoot();
      if !raised {
        return ErrFull;
      }
      ghost var mid, free := nodes[..], nextFree;
      SubRoot(mid, tree, t, height, 0, free);
      SubParts(mid, tree, t, height, 0, free);
      SubKid(mid, tree, t, height, 0, free, 0);
      rc := SplitChild(root, 0, tree);
      if rc == OK {
        SubSplit(mid, nodes[..], tree, t, height, 0, free, 0);
        CoversGrown(Ids(tree), Ids(SplitTree(tree, 0, t, free)), free, nextFree);
        tree := SplitTree(tree, 0, t, free);
      }
    }

    /** The number of new nodes that inserting a key takes. */
    ghost function Needed(key: int): nat
      reads this
    {
      if root == NONE then 1
      else if Full(tree, t) then 2 + RootSplits(tree, key, t, height)
      else Splits(tree, key, t, height)
    }

    /** One node for every level and one for a new root are enough. */
    lemma NeededBound(key: int)
      requires Valid()
      ensures Needed(key) <= if root == NONE then 1 else height + 1
    {
      hide Ids, Rep, Sub, Shape, Sorted, Flat, Splits, LeftHalf, RightHalf;
      if root != NONE {
        SubRoot(nodes[..], tree, t, height, 0, nextFree);
        if Full(tree, t) {
          SplitsBound(LeftHalf(tree, t), key, t, height);
          SplitsBound(RightHalf(tree, t, tree.id), key, t, height);
        } else {
          SplitsBound(tree, key, t, height);
        }
      }
    }

    /**
     An insertion is refused iff it needs more nodes than are free. A refused one keeps the keys in order, whatever
     splits it has already made.
     */
    method Insert(key: int) returns (rc: Status)
      requires Valid()
      modifies this`root, this`tree, this`height, this`nextFree, this`nNodes, nodes
      ensures Valid() && Sorted(Contents())
      ensures rc == if old(Needed(key)) <= nodes.Length - old(nextFree) then OK else ErrFull
      ensures rc == OK ==> multiset(Contents()) == multiset(old(Contents())) + multiset{key}
      ensures rc == ErrFull ==> Contents() == old(Contents()) && nextFree == nodes.Length
      ensures nextFree >= old(nextFree)
    {
      hide Ids, Rep, Sub, Shape, Sorted, Flat, Allocated, Covers, Grown, Splits, RootSplits, LeftHalf, RightHalf;
      if root == NONE {
        rc := PlantRoot(key);
        return;
      }
      SubRoot(nodes[..], tree, t, height, 0, nextFree);
      if nodes[root].nKeys == 2 * t - 1 {
        ghost var was, used := tree, nextFree;
        rc := GrowRoot();
        if rc != OK {
          SubParts(nodes[..], tree, t, height, 0, nextFree);
          return;
        }
        SplitsRoot(tree, was, key, t, height, used + 1);
      }
      ghost var tr, free := tree, nextFree;
      rc, tree := InsertNonfull(root, key, tree, height, 0);
      CoversInserted(tr, tree, key, rc, free, nextFree, nodes.Length);
      SubParts(nodes[..], tree, t, height, 0, nextFree);
    }

    /** Search below a node. The index of a node is never NONE, so the guard against it is left to Search. */
    method SearchNode(idx: int, key: int, ghost tr: Tree, ghost h: nat, ghost least: nat) returns (rc: Status)
      requires Pool() && Sub(nodes[..], tr, t, h, least, nextFree) && tr.id == idx
      ensures rc == if key in Flat(tr) then OK else ErrNotFound
      decreases h
    {
      hide Ids, Rep, Sub, Shape, Sorted, Flat, Weave, Allocated;
      SubRoot(nodes[..], tr, t, h, least, nextFree);
      var i := 0;
      while i < nodes[idx].nKeys && key > nodes[idx].keys[i]
        invariant i <= nodes[idx].nKeys && (i == 0 || nodes[idx].keys[i - 1] < key)
      {
        i := i + 1;
      }
      SearchStep(nodes[..], tr, t, h, least, nextFree, key, i);
      if i < nodes[idx].nKeys && key == nodes[idx].keys[i] {
        return OK;
      }
      if nodes[idx].isLeaf {
        return ErrNotFound;
      }
      SubKid(nodes[..], tr, t, h, least, nextFree, i);
      rc := SearchNode(nodes[idx].children[i], key, tr.kids[i], h - 1, t - 1);
    }

    method Search(key: int) returns (rc: Status)
      requires Valid()
      ensures rc == if root == NONE then ErrEmpty else if key in Contents() then OK else ErrNotFound
    {
      if root == NONE {
        return ErrEmpty;
      }
      rc := SearchNode(root, key, tree, height, 0);
    }

    /** The 16-bit total does not wrap around: see CountFits. */
    method CountNode(idx: int, ghost tr: Tree, ghost h: nat, ghost least: nat) returns (total: nat)
      requires Pool() && Sub(nodes[..], tr, t, h, least, nextFree) && tr.id == idx
      ensures total == |Flat(tr)| < 0x1_0000
      decreases h
    {
      hide Ids, Rep, Sub, Shape, Sorted, Flat, Weave, Allocated;
      SubRoot(nodes[..], tr, t, h, least, nextFree);
      CountFits(nodes[..], tr, t, h, least, nextFree);
      TotalIs(tr);
      total := nodes[idx].nKeys;
      if !nodes[idx].isLeaf {
        var i := 0;
        while i <= nodes[idx].nKeys
          invariant i <= |tr.kids| && total == |tr.keys| + Total(tr.kids, i)
        {
          SubKid(nodes[..], tr, t, h, least, nextFree, i);
          var c := CountNode(nodes[idx].children[i], tr.kids[i], h - 1, t - 1);
          total := total + c;
          i := i + 1;
        }
      }
    }

    method Count() returns (total: nat)
      requires Valid()
      ensures total == |Contents()| < 0x1_0000
    {
      if root == NONE {
        return 0;
      }
      total := CountNode(root, tree, height, 0);
    }

    method HeightNode(idx: int, ghost tr: Tree, ghost h: nat, ghost least: nat) returns (r: nat)
      requires Pool() && Sub(nodes[..], tr, t, h, least, nextFree) && tr.id == idx
      ensures r == h
      decreases h
    {
      hide Ids, Rep, Sub, Shape, Sorted, Flat, Weave, Allocated;
      SubRoot(nodes[..], tr, t, h, least, nextFree);
      if nodes[idx].isLeaf {
        return 1;
      }
      SubKid(nodes[..], tr, t, h, least, nextFree, 0);
      r := HeightNode(nodes[idx].children[0], tr.kids[0], h - 1, t - 1);
      r := 1 + r;
    }

    method Height() returns (r: nat)
      requires Valid()
      ensures r == if root == NONE then 0 else height
    {
      if root == NONE {
        return 0;
      }
      r := HeightNode(root, tree, height, 0);
    }

    method Min() returns (rc: Status, value: int)
      requires Valid()
      ensures rc == if root == NONE then ErrEmpty else OK
      ensures rc == OK ==> Contents() != [] && value == Contents()[0] && forall x :: x in Contents() ==> value <= x
    {
      hide Ids, Rep, Sub, Shape, Sorted, Flat, Weave, Allocated, Covers;
      if root == NONE {
        return ErrEmpty, 0;
      }
      var idx := root;
      ghost var cur, h := tree, height;
      SubRoot(nodes[..], cur, t, h, 0, nextFree);
      while !nodes[idx].isLeaf
        invariant 0 <= idx < nodes.Length && Sub(nodes[..], cur, t, h, 0, nextFree) && cur.id == idx
        invariant nodes[idx].isLeaf ==> cur.keys != []
        invariant Flat(cur) <= Flat(tree)
        decreases h
      {
        SubRoot(nodes[..], cur, t, h, 0, nextFree);
        SubKid(nodes[..], cur, t, h, 0, nextFree, 0);
        SubRoot(nodes[..], cur.kids[0], t, h - 1, t - 1, nextFree);
        SubLeast(nodes[..], cur.kids[0], t, h - 1, t - 1, nextFree);
        FirstKid(cur);
        idx := nodes[idx].children[0];
        cur, h := cur.kids[0], h - 1;
      }
      SubRoot(nodes[..], cur, t, h, 0, nextFree);
      FlatIs(cur);
      value := nodes[idx].keys[0];
      rc := OK;
      SubParts(nodes[..], tree, t, height, 0, nextFree);
      Extremes(Contents());
    }

    method Max() returns (rc: Status, value: int)
      requires Valid()
      ensures rc == if root == NONE then ErrEmpty else OK
      ensures rc == OK ==> Contents() != [] && value == Contents()[|Contents()| - 1]
                           && forall x :: x in Contents() ==> x <= value
    {
      hide Ids, Rep, Sub, Shape, Sorted, Flat, Weave, Allocated, Covers;
      if root == NONE {
        return ErrEmpty, 0;
      }
      var idx := root;
      ghost var cur, h := tree, height;
      SubRoot(nodes[..], cur, t, h, 0, nextFree);
      while !nodes[idx].isLeaf
        invariant 0 <= idx < nodes.Length && Sub(nodes[..], cur, t, h, 0, nextFree) && cur.id == idx
        invariant nodes[idx].isLeaf ==> cur.keys != []
        invariant Ends(Flat(tree), Flat(cur))
        decreases h
      {
        SubRoot(nodes[..], cur, t, h, 0, nextFree);
        SubKid(nodes[..], cur, t, h, 0, nextFree, nodes[idx].nKeys);
        SubRoot(nodes[..], cur.kids[nodes[idx].nKeys], t, h - 1, t - 1, nextFree);
        SubLeast(nodes[..], cur.kids[nodes[idx].nKeys], t, h - 1, t - 1, nextFree);
        LastKid(cur);
        idx := nodes[idx].children[nodes[idx].nKeys];
        cur, h := cur.kids[|cur.keys|], h - 1;
      }
      SubRoot(nodes[..], cur, t, h, 0, nextFree);
      FlatIs(cur);
      value := nodes[idx].keys[nodes[idx].nKeys - 1];
      rc := OK;
      SubParts(nodes[..], tree, t, height, 0, nextFree);
      Extremes(Contents());
    }

    method Clear()
      modifies this`root, this`nNodes, this`nextFree, nodes
      requires Valid()
      ensures Valid() && Contents() == [] && root == NONE && nextFree == 0
    {
      root, nNodes, nextFree := NONE, 0, 0;
      forall i | 0 <= i < nodes.Length {
        nodes[i] := Blank(t);
      }
    }
  }

  ghost predicate Covers(ids: multiset<int>, free: nat) {
    forall x :: ids[x] == if 0 <= x < free then 1 else 0
  }

  /** c ends with s. */
  ghost predicate Ends(c: seq<int>, s: seq<int>) {
    |s| <= |c| && c[|c| - |s|..] == s
  }

  ghost function Total(kids: seq<Tree>, i: nat): nat
    requires i <= |kids|
  {
    if i == 0 then 0 else Total(kids, i - 1) + |Flat(kids[i - 1])|
  }

  ghost predicate Promoted(p: Node, p': Node, pos: nat, median: int, slot: int) {
    && pos <= p.nKeys < |p.keys| == |p'.keys| && p.nKeys + 2 <= |p.children| == |p'.children|
    && p'.nKeys == p.nKeys + 1 && p'.isLeaf == p.isLeaf
    && p'.keys[..p.nKeys + 1] == p.keys[..pos] + [median] + p.keys[pos..p.nKeys]
    && p'.children[..p.nKeys + 2] == p.children[..pos + 1] + [slot] + p.children[pos + 1..p.nKeys + 1]
  }

  /** The three rewritten slots of a split: parent, split child, and the new node f. */
  ghost predicate SplitSlots(p: Node, p': Node, c: Node, c': Node, f: Node, pos: nat, t: nat, slot: int) {
    && t >= 2 && |p.keys| == |c.keys| == |c'.keys| == |f.keys| == 2 * t - 1
    && |p.children| == |c.children| == |c'.children| == |f.children| == 2 * t
    && Promoted(p, p', pos, c.keys[t - 1], slot)
    && c'.nKeys == f.nKeys == t - 1 && c'.isLeaf == f.isLeaf == c.isLeaf
    && c'.keys == c.keys && f.keys[..t - 1] == c.keys[t..]
    && (!c.isLeaf ==> c'.children[..t] == c.children[..t] && f.children[..t] == c.children[t..])
  }

  lemma RepRoot(ns: seq<Node>, tr: Tree, t: nat)
    requires Rep(ns, tr, t)
    ensures 0 <= tr.id < |ns|
    ensures var n := ns[tr.id];
            n.nKeys == |tr.keys| <= |n.keys| == 2 * t - 1 && |n.children| == 2 * t && n.keys[..n.nKeys] == tr.keys
            && (n.isLeaf <==> tr.kids == []) && (tr.kids != [] ==> |tr.kids| == n.nKeys + 1)
    ensures forall j :: 0 <= j < |tr.kids| ==> ns[tr.id].children[j] == tr.kids[j].id && Rep(ns, tr.kids[j], t)
  {}

  lemma DistinctIds(tr: Tree, pos: nat, free: int)
    requires pos < |tr.kids| && Allocated(Ids(tr), free)
    ensures tr.id != tr.kids[pos].id && 0 <= tr.id < free && 0 <= tr.kids[pos].id < free
    ensures Ids(tr.kids[pos])[tr.id] == 0 && Ids(tr)[tr.id] == 1 && Ids(tr)[tr.kids[pos].id] == 1
  {
    IdsSelf(tr);
    IdsSelf(tr.kids[pos]);
    IdsApart(tr, pos, pos, tr.id);
    IdsApart(tr, pos, pos, tr.kids[pos].id);
  }

  /** The children slots of the parent name the kids of the split tree. */
  lemma SplitParent(ns: seq<Node>, ns': seq<Node>, tr: Tree, pos: nat, t: nat, slot: int)
    requires Rep(ns, tr, t) && CanSplit(tr, pos, t) && |tr.keys| < 2 * t - 1 && |ns'| == |ns|
    requires 0 <= slot < |ns| && 0 <= tr.id < |ns| && 0 <= tr.kids[pos].id < |ns|
    requires SplitSlots(ns[tr.id], ns'[tr.id], ns[tr.kids[pos].id], ns'[tr.kids[pos].id], ns'[slot], pos, t, slot)
    ensures var s, p, p' := SplitTree(tr, pos, t, slot), ns[tr.id], ns'[tr.id];
            && p'.nKeys == |s.keys| <= |p'.keys| == 2 * t - 1 && |p'.children| == 2 * t && p'.keys[..p'.nKeys] == s.keys
            && !p'.isLeaf && |s.kids| == p'.nKeys + 1
            && forall i :: 0 <= i < |s.kids| ==> p'.children[i] == s.kids[i].id
  {
    hide Rep, LeftHalf, RightHalf;
    var kid, s, p, p' := tr.kids[pos], SplitTree(tr, pos, t, slot), ns[tr.id], ns'[tr.id];
    RepRoot(ns, tr, t);
    RepRoot(ns, kid, t);
    assert p.keys[pos..p.nKeys] == tr.keys[pos..] && p.keys[..pos] == tr.keys[..pos];
    assert ns[kid.id].keys[t - 1] == kid.keys[t - 1];
    HalfIds(kid, t, slot);
    forall i | 0 <= i < |s.kids|
      ensures p'.children[i] == s.kids[i].id
    {
      assert p'.children[i] == p'.children[..p.nKeys + 2][i];
      if i > pos + 1 {
        assert s.kids[i] == tr.kids[i - 1];
        assert p'.children[i] == p.children[i - 1];
      }
    }
  }

  lemma HalfIds(kid: Tree, t: nat, slot: int)
    requires t >= 1 && |kid.keys| == 2 * t - 1 && (kid.kids == [] || |kid.kids| == 2 * t)
    ensures LeftHalf(kid, t).id == kid.id && RightHalf(kid, t, slot).id == slot
  {}

  /** Every kid of the split tree is represented. */
  lemma SplitKid(ns: seq<Node>, ns': seq<Node>, tr: Tree, pos: nat, t: nat, slot: int, i: nat)
    requires Rep(ns, tr, t) && CanSplit(tr, pos, t) && |tr.keys| < 2 * t - 1 && |ns'| == |ns|
    requires 0 <= slot < |ns| && Allocated(Ids(tr), slot)
    requires 0 <= tr.id < |ns| && 0 <= tr.kids[pos].id < |ns|
    requires SplitSlots(ns[tr.id], ns'[tr.id], ns[tr.kids[pos].id], ns'[tr.kids[pos].id], ns'[slot], pos, t, slot)
    requires forall x :: 0 <= x < |ns| && x != tr.id && x != tr.kids[pos].id && x != slot ==> ns'[x] == ns[x]
    requires i < |SplitTree(tr, pos, t, slot).kids|
    ensures Rep(ns', SplitTree(tr, pos, t, slot).kids[i], t)
  {
    hide Ids, Rep, LeftHalf, RightHalf, SplitSlots;
    var kid, s := tr.kids[pos], SplitTree(tr, pos, t, slot);
    if i == pos {
      HalfRep(ns, ns', tr, pos, t, slot, LeftHalf(kid, t));
    } else if i == pos + 1 {
      HalfRep(ns, ns', tr, pos, t, slot, RightHalf(kid, t, slot));
    } else {
      var j := if i < pos then i else i - 1;
      assert s.kids[i] == tr.kids[j];
      RepRoot(ns, tr, t);
      OtherKid(ns, ns', tr, pos, j, t, slot);
    }
  }

  /** What a split writes represents the split tree. */
  lemma SplitRep(ns: seq<Node>, ns': seq<Node>, tr: Tree, pos: nat, t: nat, slot: int)
    requires Rep(ns, tr, t) && CanSplit(tr, pos, t) && |tr.keys| < 2 * t - 1 && |ns'| == |ns|
    requires 0 <= slot < |ns| && Allocated(Ids(tr), slot)
    requires 0 <= tr.id < |ns| && 0 <= tr.kids[pos].id < |ns|
    requires SplitSlots(ns[tr.id], ns'[tr.id], ns[tr.kids[pos].id], ns'[tr.kids[pos].id], ns'[slot], pos, t, slot)
    requires forall x :: 0 <= x < |ns| && x != tr.id && x != tr.kids[pos].id && x != slot ==> ns'[x] == ns[x]
    ensures Rep(ns', SplitTree(tr, pos, t, slot), t)
  {
    hide Ids, Rep, LeftHalf, RightHalf, SplitSlots, SplitTree;
    var s := SplitTree(tr, pos, t, slot);
    SplitParent(ns, ns', tr, pos, t, slot);
    SplitId(tr, pos, t, slot);
    forall i | 0 <= i < |s.kids|
      ensures Rep(ns', s.kids[i], t)
    {
      SplitKid(ns, ns', tr, pos, t, slot, i);
    }
    RootRep(ns', s, t);
  }

  lemma SplitId(tr: Tree, pos: nat, t: nat, slot: int)
    requires CanSplit(tr, pos, t)
    ensures SplitTree(tr, pos, t, slot).id == tr.id
  {}

  lemma RootRep(ns: seq<Node>, tr: Tree, t: nat)
    requires 0 <= tr.id < |ns|
    requires var n := ns[tr.id];
             n.nKeys == |tr.keys| <= |n.keys| == 2 * t - 1 && |n.children| == 2 * t && n.keys[..n.nKeys] == tr.keys
             && (n.isLeaf <==> tr.kids == []) && (tr.kids != [] ==> |tr.kids| == n.nKeys + 1)
    requires forall j :: 0 <= j < |tr.kids| ==> ns[tr.id].children[j] == tr.kids[j].id && Rep(ns, tr.kids[j], t)
    ensures Rep(ns, tr, t)
  {}

  /** Kids other than the split one are out of reach of the writes. */
  lemma OtherKid(ns: seq<Node>, ns': seq<Node>, tr: Tree, pos: nat, j: nat, t: nat, slot: int)
    requires pos < |tr.kids| && j < |tr.kids| && j != pos && Rep(ns, tr.kids[j], t) && Allocated(Ids(tr), slot)
    requires |ns'| == |ns|
    requires forall x :: 0 <= x < |ns| && x != tr.id && x != tr.kids[pos].id && x != slot ==> ns'[x] == ns[x]
    ensures Rep(ns', tr.kids[j], t)
  {
    hide Ids, Rep;
    forall x | 0 <= x < |ns| && Ids(tr.kids[j])[x] > 0
      ensures ns'[x] == ns[x]
    {
      IdsApart(tr, j, pos, x);
      IdsSelf(tr.kids[pos]);
    }
    RepFrame(ns, ns', tr.kids[j], t);
  }

  lemma HalfRep(ns: seq<Node>, ns': seq<Node>, tr: Tree, pos: nat, t: nat, slot: int, half: Tree)
    requires Rep(ns, tr, t) && CanSplit(tr, pos, t) && |tr.keys| < 2 * t - 1 && |ns'| == |ns|
    requires 0 <= slot < |ns| && Allocated(Ids(tr), slot)
    requires 0 <= tr.id < |ns| && 0 <= tr.kids[pos].id < |ns|
    requires SplitSlots(ns[tr.id], ns'[tr.id], ns[tr.kids[pos].id], ns'[tr.kids[pos].id], ns'[slot], pos, t, slot)
    requires forall x :: 0 <= x < |ns| && x != tr.id && x != tr.kids[pos].id && x != slot ==> ns'[x] == ns[x]
    requires half == LeftHalf(tr.kids[pos], t) || half == RightHalf(tr.kids[pos], t, slot)
    ensures Rep(ns', half, t)
  {
    hide Ids, Rep, LeftHalf, RightHalf, SplitSlots;
    var kid := tr.kids[pos];
    RepRoot(ns, tr, t);
    RepRoot(ns, kid, t);
    Grandkids(ns, ns', tr, pos, t, slot);
    var lo := if half == LeftHalf(kid, t) then 0 else t;
    HalfNode(ns[kid.id], ns'[kid.id], ns'[slot], ns[tr.id], ns'[tr.id], pos, kid, t, slot, half, lo);
    forall i | 0 <= i < |half.kids|
      ensures Rep(ns', half.kids[i], t)
    {
      assert half.kids[i] in kid.kids;
    }
    RootRep(ns', half, t);
  }

  lemma HalfNode(c: Node, c': Node, f: Node, p: Node, p': Node, pos: nat, kid: Tree, t: nat, slot: int, half: Tree,
                 lo: nat)
    requires SplitSlots(p, p', c, c', f, pos, t, slot) && c.nKeys == |kid.keys| <= |c.keys|
             && c.keys[..c.nKeys] == kid.keys
    requires |kid.keys| == 2 * t - 1 && (kid.kids == [] || |kid.kids| == 2 * t)
    requires c.isLeaf <==> kid.kids == []
    requires forall j :: 0 <= j < |kid.kids| ==> c.children[j] == kid.kids[j].id
    requires (half == LeftHalf(kid, t) && lo == 0) || (half == RightHalf(kid, t, slot) && lo == t)
    ensures var h := if lo == 0 then c' else f;
            && half.id == (if lo == 0 then kid.id else slot) && |h.children| == 2 * t
            && h.nKeys == |half.keys| <= |h.keys| == 2 * t - 1 && h.keys[..h.nKeys] == half.keys
            && (h.isLeaf <==> half.kids == [])
            && (half.kids != [] ==> |half.kids| == h.nKeys + 1)
            && (forall k :: k in half.kids ==> k in kid.kids)
            && forall i :: 0 <= i < |half.kids| ==> h.children[i] == half.kids[i].id
  {
    hide Promoted;
    var h := if lo == 0 then c' else f;
    forall i | 0 <= i < |half.kids|
      ensures h.children[i] == half.kids[i].id
    {
      assert half.kids[i] == kid.kids[lo + i];
      assert h.children[i] == h.children[..t][i];
    }
  }

  lemma Grandkids(ns: seq<Node>, ns': seq<Node>, tr: Tree, pos: nat, t: nat, slot: int)
    requires pos < |tr.kids| && Rep(ns, tr.kids[pos], t)
    requires |ns'| == |ns| && Allocated(Ids(tr), slot)
    requires forall x :: 0 <= x < |ns| && x != tr.id && x != tr.kids[pos].id && x != slot ==> ns'[x] == ns[x]
    ensures forall j :: 0 <= j < |tr.kids[pos].kids| ==> Rep(ns', tr.kids[pos].kids[j], t)
  {
    hide Ids, Rep;
    RepRoot(ns, tr.kids[pos], t);
    forall j | 0 <= j < |tr.kids[pos].kids|
      ensures Rep(ns', tr.kids[pos].kids[j], t)
    {
      Grandkid(ns, ns', tr, pos, j, t, slot);
    }
  }

  lemma Grandkid(ns: seq<Node>, ns': seq<Node>, tr: Tree, pos: nat, j: nat, t: nat, slot: int)
    requires pos < |tr.kids| && j < |tr.kids[pos].kids| && Rep(ns, tr.kids[pos].kids[j], t)
    requires |ns'| == |ns| && Allocated(Ids(tr), slot)
    requires forall x :: 0 <= x < |ns| && x != tr.id && x != tr.kids[pos].id && x != slot ==> ns'[x] == ns[x]
    ensures Rep(ns', tr.kids[pos].kids[j], t)
  {
    hide Ids, Rep;
    var kid := tr.kids[pos];
    forall x | 0 <= x < |ns| && Ids(kid.kids[j])[x] > 0
      ensures ns'[x] == ns[x]
    {
      IdsApart(tr, pos, pos, x);
      IdsApart(kid, j, j, x);
    }
    RepFrame(ns, ns', kid.kids[j], t);
  }

  // ----- insertion into a part of the tree

  /** What an insertion relies on and keeps: a sorted B-tree of height h, all of it in allocated slots. */
  ghost predicate Sub(ns: seq<Node>, tr: Tree, t: nat, h: nat, least: nat, free: nat) {
    Rep(ns, tr, t) && Shape(tr, t, h, least) && Sorted(Flat(tr)) && Allocated(Ids(tr), free)
  }

  /** The outcome of inserting a key, with slots [lo, hi) of max newly allocated. */
  ghost predicate Inserted(tr: Tree, tr': Tree, key: int, rc: Status, lo: nat, hi: nat, max: nat) {
    && tr'.id == tr.id && |tr.keys| <= |tr'.keys| && lo <= hi <= max && Grown(Ids(tr), Ids(tr'), lo, hi)
    && (rc == OK || rc == ErrFull)
    && (rc == OK ==> multiset(Flat(tr')) == multiset(Flat(tr)) + multiset{key})
    && (rc == ErrFull ==> Flat(tr') == Flat(tr) && hi == max)
  }

  lemma SubRoot(ns: seq<Node>, tr: Tree, t: nat, h: nat, least: nat, free: nat)
    requires Sub(ns, tr, t, h, least, free)
    ensures 0 <= tr.id < |ns| && 0 <= tr.id < free && h >= 1
    ensures var n := ns[tr.id];
            n.nKeys == |tr.keys| <= |n.keys| == 2 * t - 1 && |n.children| == 2 * t && n.keys[..n.nKeys] == tr.keys
            && (n.isLeaf <==> tr.kids == []) && (tr.kids != [] ==> |tr.kids| == n.nKeys + 1)
    ensures forall j :: 0 <= j < |tr.kids| ==> ns[tr.id].children[j] == tr.kids[j].id
    ensures tr.kids == [] <==> h == 1
    ensures tr.kids == [] ==> Sorted(tr.keys)
  {
    hide Flat, Sorted, Ids, Grown;
    RepRoot(ns, tr, t);
    FlatIs(tr);
    IdsSelf(tr);
  }

  lemma SubKid(ns: seq<Node>, tr: Tree, t: nat, h: nat, least: nat, free: nat, j: nat)
    requires Sub(ns, tr, t, h, least, free) && j < |tr.kids|
    ensures h > 1 && Sub(ns, tr.kids[j], t, h - 1, t - 1, free)
    ensures 0 <= tr.kids[j].id < |ns| && ns[tr.kids[j].id].nKeys == |tr.kids[j].keys|
    ensures |tr.kids[j].keys| <= 2 * t - 1
    ensures tr.kids[j].kids == [] || |tr.kids[j].kids| == |tr.kids[j].keys| + 1
  {
    hide Flat, Sorted, Ids, Weave;
    KidSorted(tr, j);
    KidIds(tr, j);
    forall x
      ensures Ids(tr.kids[j])[x] <= if 0 <= x < free then 1 else 0
    {
      assert Ids(tr.kids[j])[x] <= Ids(tr)[x];
    }
  }

  lemma Refused(tr: Tree, key: int, free: nat)
    ensures Inserted(tr, tr, key, ErrFull, free, free, free)
  {}

  lemma SubParts(ns: seq<Node>, tr: Tree, t: nat, h: nat, least: nat, free: nat)
    requires Sub(ns, tr, t, h, least, free)
    ensures Rep(ns, tr, t) && Shape(tr, t, h, least) && Sorted(Flat(tr)) && Allocated(Ids(tr), free)
  {}

  lemma LeafInserted(ns: seq<Node>, ns': seq<Node>, tr: Tree, t: nat, h: nat, least: nat, free: nat, max: nat,
                     key: int, p: nat)
    requires Sub(ns, tr, t, h, least, free) && tr.kids == [] && |tr.keys| < 2 * t - 1 && |ns'| == |ns| && free <= max
    requires 0 <= tr.id < |ns| && p <= |tr.keys| && |ns[tr.id].keys| == 2 * t - 1
    requires ns'[tr.id] == ns[tr.id].(nKeys := |tr.keys| + 1, keys :=
      ns[tr.id].keys[..p] + [key] + ns[tr.id].keys[p..|tr.keys|] + ns[tr.id].keys[|tr.keys| + 1..])
    requires (p == 0 || ns[tr.id].keys[p - 1] <= key) && (p == |tr.keys| || key < ns[tr.id].keys[p])
    ensures var tr' := tr.(keys := tr.keys[..p] + [key] + tr.keys[p..]);
            Sub(ns', tr', t, h, least, free) && Inserted(tr, tr', key, OK, free, free, max)
  {
    hide Sorted, Weave, Rep;
    RepRoot(ns, tr, t);
    var a, c := tr.keys[..p], tr.keys[p..];
    var tr' := tr.(keys := a + [key] + c);
    assert a == ns[tr.id].keys[..p] && c == ns[tr.id].keys[p..|tr.keys|];
    assert tr.keys == a + [] + c;
    LeafSorted(a, c, key);
    FlatIs(tr);
    FlatIs(tr');
    LeafRep(ns', tr', t);
  }

  lemma LeafRep(ns: seq<Node>, tr: Tree, t: nat)
    requires tr.kids == [] && 0 <= tr.id < |ns| && ns[tr.id].nKeys == |tr.keys| <= |ns[tr.id].keys| == 2 * t - 1
    requires |ns[tr.id].children| == 2 * t && ns[tr.id].isLeaf && ns[tr.id].keys[..|tr.keys|] == tr.keys
    ensures Rep(ns, tr, t)
  {}

  lemma LeafSorted(a: seq<int>, c: seq<int>, key: int)
    requires Sorted(a + [] + c) && (a == [] || a[|a| - 1] <= key) && (c == [] || key <= c[0])
    ensures Sorted(a + [key] + c) && multiset(a + [key] + c) == multiset(a + [] + c) + multiset{key}
  {
    hide Sorted;
    OneSorted(key);
    SortedMiddle(a, [], [key], c, key);
  }

  lemma OneSorted(key: int)
    ensures Sorted([key]) && multiset([key]) == multiset([]) + multiset{key}
  {}

  lemma SubSplit(ns: seq<Node>, ns': seq<Node>, tr: Tree, t: nat, h: nat, least: nat, free: nat, pos: nat)
    requires Sub(ns, tr, t, h, least, free) && t >= 2 && CanSplit(tr, pos, t) && |tr.keys| < 2 * t - 1
    requires Rep(ns', SplitTree(tr, pos, t, free), t)
    ensures var s := SplitTree(tr, pos, t, free);
            && Sub(ns', s, t, h, least, free + 1) && s.id == tr.id && s != tr
            && Flat(s) == Flat(tr) && Grown(Ids(tr), Ids(s), free, free + 1)
            && s.keys == tr.keys[..pos] + [tr.kids[pos].keys[t - 1]] + tr.keys[pos..]
            && |s.kids| == |s.keys| + 1 && |s.kids[pos].keys| == |s.kids[pos + 1].keys| == t - 1
  {
    hide Flat, Sorted, Ids, Weave, Rep;
    SplitFlat(tr, pos, t, free);
    SplitShape(tr, pos, t, h, least, free);
    SplitIds(tr, pos, t, free);
    assert |SplitTree(tr, pos, t, free).keys| == |tr.keys| + 1;
  }

  lemma SubReplace(ns: seq<Node>, ns': seq<Node>, tr: Tree, j: nat, kid: Tree, key: int, rc: Status,
                   t: nat, h: nat, least: nat, lo: nat, hi: nat, max: nat)
    requires Sub(ns, tr, t, h, least, lo) && h > 1 && j < |tr.kids| && |ns'| == |ns|
    requires Sub(ns', kid, t, h - 1, t - 1, hi) && Inserted(tr.kids[j], kid, key, rc, lo, hi, max)
    requires forall x :: 0 <= x < |ns| && x < lo && Ids(tr.kids[j])[x] == 0 ==> ns'[x] == ns[x]
    requires |tr.kids| == |tr.keys| + 1
    requires (j == 0 || tr.keys[j - 1] <= key) && (j == |tr.keys| || key <= tr.keys[j])
    ensures var tr' := tr.(kids := tr.kids[j := kid]);
            Sub(ns', tr', t, h, least, hi) && Inserted(tr, tr', key, rc, lo, hi, max)
  {
    hide Rep, Flat, Weave, Sorted, Ids, Shape;
    RepReplace(ns, ns', tr, j, kid, t, lo);
    ReplaceShape(tr, j, kid, t, h, least);
    GrownReplace(tr, j, kid, lo, hi);
    if rc == OK {
      InsertFlat(tr, j, kid, key);
    } else {
      FlatIs(tr);
      FlatIs(tr.(kids := tr.kids[j := kid]));
      WeaveAt(tr.keys, tr.kids, j);
      WeaveReplace(tr.keys, tr.kids, j, kid);
    }
  }

  lemma InsertedAfter(tr: Tree, s: Tree, tr': Tree, key: int, rc: Status, lo: nat, mid: nat, hi: nat, max: nat)
    requires s.id == tr.id && |tr.keys| <= |s.keys| && Flat(s) == Flat(tr) && lo <= mid
             && Grown(Ids(tr), Ids(s), lo, mid)
    requires Inserted(s, tr', key, rc, mid, hi, max)
    ensures Inserted(tr, tr', key, rc, lo, hi, max)
  {
    hide Flat, Ids;
  }

  lemma KidIdsBelow(tr: Tree, s: Tree, j: nat, lo: nat, hi: nat)
    requires j < |s.kids| && Grown(Ids(tr), Ids(s), lo, hi)
    ensures forall x :: x < lo && Ids(tr)[x] == 0 ==> Ids(s.kids[j])[x] == 0
  {
    hide Ids;
    forall x | x < lo && Ids(tr)[x] == 0
      ensures Ids(s.kids[j])[x] == 0
    {
      KidIds(s, j);
      assert Ids(s)[x] == 0;
    }
  }

  // ----- the whole tree

  lemma CoversGrown(ids: multiset<int>, ids': multiset<int>, lo: nat, hi: nat)
    requires Covers(ids, lo) && lo <= hi && Grown(ids, ids', lo, hi)
    ensures Covers(ids', hi)
  {}

  lemma CoversInserted(tr: Tree, tr': Tree, key: int, rc: Status, lo: nat, hi: nat, max: nat)
    requires Covers(Ids(tr), lo) && Inserted(tr, tr', key, rc, lo, hi, max)
    ensures Covers(Ids(tr'), hi)
  {}

  lemma NoneSorted()
    ensures Sorted([])
  {}

  lemma FirstKey(ns: seq<Node>, t: nat, key: int)
    requires t >= 2 && |ns| > 0 && ns[0].nKeys == 1 && |ns[0].keys| == 2 * t - 1 && |ns[0].children| == 2 * t
    requires ns[0].isLeaf && ns[0].keys[0] == key
    ensures var tr := Tree(0, [key], []);
            Sub(ns, tr, t, 1, 0, 1) && Covers(Ids(tr), 1) && Flat(tr) == [key] && Sorted(Flat(tr))
  {
    var tr := Tree(0, [key], []);
    assert IdsOf([]) == multiset{};
    assert Ids(tr) == multiset{0};
  }

  lemma RootAbove(ns: seq<Node>, ns': seq<Node>, tr: Tree, t: nat, h: nat, free: nat, idx: int)
    requires Sub(ns, tr, t, h, 0, free) && Covers(Ids(tr), free) && |tr.keys| == 2 * t - 1 && t >= 2
    requires |ns'| == |ns| && idx == free < |ns| && forall x :: 0 <= x < |ns| && x != idx ==> ns'[x] == ns[x]
    requires ns'[idx].nKeys == 0 && !ns'[idx].isLeaf && |ns'[idx].keys| == 2 * t - 1 && |ns'[idx].children| == 2 * t
    requires ns'[idx].children[0] == tr.id
    ensures var r := Tree(idx, [], [tr]);
            Sub(ns', r, t, h + 1, 0, free + 1) && Covers(Ids(r), free + 1) && Flat(r) == Flat(tr)
  {
    hide Rep, Flat, Weave, Sorted, Ids;
    var r := Tree(idx, [], [tr]);
    forall x | 0 <= x < |ns| && Ids(tr)[x] > 0
      ensures ns'[x] == ns[x]
    {
      assert x != idx;
    }
    RepFrame(ns, ns', tr, t);
    RootRep(ns', r, t);
    LeastShape(tr, t, h, 0, t - 1);
    FlatIs(r);
    WeaveOne(tr);
    IdsIs(r);
    IdsOne(tr);
  }

  lemma LeastShape(tr: Tree, t: nat, h: nat, least: nat, least': nat)
    requires Shape(tr, t, h, least) && least' <= |tr.keys|
    ensures Shape(tr, t, h, least')
  {}

  lemma WeaveOne(tr: Tree)
    ensures Weave([], [tr]) == Flat(tr)
  {}

  lemma SubLeast(ns: seq<Node>, tr: Tree, t: nat, h: nat, least: nat, free: nat)
    requires Sub(ns, tr, t, h, least, free)
    ensures |tr.keys| >= least && Sub(ns, tr, t, h, 0, free)
  {}

  lemma FirstKid(tr: Tree)
    requires |tr.kids| == |tr.keys| + 1
    ensures Flat(tr.kids[0]) <= Flat(tr)
  {}

  lemma LastKid(tr: Tree)
    requires |tr.kids| == |tr.keys| + 1
    ensures Ends(Flat(tr), Flat(tr.kids[|tr.keys|]))
  {
    hide Before, Weave, Flat;
    FlatIs(tr);
    WeaveAt(tr.keys, tr.kids, |tr.keys|);
  }

  /** A key between separators i-1 and i is in the whole iff it is in kid i. */
  lemma SearchStep(ns: seq<Node>, tr: Tree, t: nat, h: nat, least: nat, free: nat, key: int, i: nat)
    requires Sub(ns, tr, t, h, least, free) && i <= |tr.keys|
    requires (i == 0 || tr.keys[i - 1] < key) && (i == |tr.keys| || key <= tr.keys[i])
    ensures i < |tr.keys| && key == tr.keys[i] ==> key in Flat(tr)
    ensures !(i < |tr.keys| && key == tr.keys[i]) && tr.kids == [] ==> key !in Flat(tr)
    ensures !(i < |tr.keys| && key == tr.keys[i]) && tr.kids != [] ==> (key in Flat(tr) <==> key in Flat(tr.kids[i]))
  {
    hide Rep, Weave, Ids, Flat, Before, After, Sorted;
    FlatIs(tr);
    if tr.kids == [] {
      LeafSearch(tr.keys, key, i);
    } else {
      var a, m, c := Before(tr.keys, tr.kids, i), Flat(tr.kids[i]), After(tr.keys, tr.kids, i);
      WeaveAt(tr.keys, tr.kids, i);
      AfterStep(tr.keys, tr.kids, i);
      BeforeStep(tr.keys, tr.kids, i);
      SortedJoin(a + m, c);
      SortedJoin(a, m);
      if key in a {
        LastIsGreatest(a, key);
      }
      if key in c {
        FirstIsLeast(c, key);
      }
    }
  }

  lemma LeafSearch(keys: seq<int>, key: int, i: nat)
    requires Sorted(keys) && i <= |keys|
    requires (i == 0 || keys[i - 1] < key) && (i == |keys| || key <= keys[i])
    ensures key in keys <==> i < |keys| && key == keys[i]
  {}

  lemma {:induction false} TotalBefore(keys: seq<int>, kids: seq<Tree>, i: nat)
    requires i <= |keys| && i <= |kids|
    ensures |Before(keys, kids, i)| == i + Total(kids, i)
  {
    hide Flat;
    if i > 0 {
      TotalBefore(keys, kids, i - 1);
    }
  }

  lemma TotalIs(tr: Tree)
    requires tr.kids == [] || |tr.kids| == |tr.keys| + 1
    ensures |Flat(tr)| == |tr.keys| + if tr.kids == [] then 0 else Total(tr.kids, |tr.kids|)
  {
    hide Flat, Weave;
    FlatIs(tr);
    if tr.kids != [] {
      WeaveAt(tr.keys, tr.kids, |tr.keys|);
      TotalBefore(tr.keys, tr.kids, |tr.keys|);
    }
  }

  lemma {:induction false} TotalBound(kids: seq<Tree>, i: nat, t: nat, h: nat)
    requires i <= |kids| && h >= 1 && t >= 1 && forall j :: 0 <= j < |kids| ==> Shape(kids[j], t, h, t - 1)
    ensures Total(kids, i) <= (2 * t - 1) * |IdsOf(kids[..i])|
    decreases h, i
  {
    hide Flat, Shape, Ids, IdsOf;
    if i == 0 {
      IdsNone();
      assert kids[..0] == [];
    } else {
      TotalBound(kids, i - 1, t, h);
      KeysBound(kids[i - 1], t, h, t - 1);
      assert kids[..i] == kids[..i - 1] + [kids[i - 1]];
      IdsConcat(kids[..i - 1], [kids[i - 1]]);
      IdsOne(kids[i - 1]);
      assert |IdsOf(kids[..i])| == |IdsOf(kids[..i - 1])| + |Ids(kids[i - 1])|;
    }
  }

  lemma IdsNone()
    ensures IdsOf([]) == multiset{}
  {}

  /** A tree has at most 2t-1 keys for every node. */
  lemma {:induction false} KeysBound(tr: Tree, t: nat, h: nat, least: nat)
    requires Shape(tr, t, h, least) && t >= 1
    ensures |Flat(tr)| <= (2 * t - 1) * |Ids(tr)|
    decreases h, 0
  {
    hide Flat, Ids, IdsOf, Total;
    TotalIs(tr);
    IdsIs(tr);
    if tr.kids != [] {
      TotalBound(tr.kids, |tr.kids|, t, h - 1);
      assert tr.kids[..|tr.kids|] == tr.kids;
      OneMore(2 * t - 1, |IdsOf(tr.kids)|, |tr.keys|, Total(tr.kids, |tr.kids|));
    } else {
      OneMore(2 * t - 1, |IdsOf(tr.kids)|, |tr.keys|, 0);
    }
  }

  lemma OneMore(a: nat, n: nat, k: nat, total: nat)
    requires k <= a && (total <= a * n || total == 0)
    ensures k + total <= a * (n + 1)
  {}

  lemma {:induction false} AllocatedSize(ids: multiset<int>, free: nat)
    requires Allocated(ids, free)
    ensures |ids| <= free
  {
    if free == 0 {
      forall x
        ensures x !in ids
      {
        assert ids[x] == 0;
      }
    } else {
      var last := free - 1;
      AllocatedSize(ids[last := 0], last);
      assert ids == ids[last := 0] + multiset{last}[last := ids[last]];
    }
  }

  /** With at most 255 nodes of at most 253 keys, the number of keys fits 16 bits. */
  lemma CountFits(ns: seq<Node>, tr: Tree, t: nat, h: nat, least: nat, free: nat)
    requires Sub(ns, tr, t, h, least, free) && 1 <= t <= 127 && free <= 255
    ensures |Flat(tr)| < 0x1_0000
  {
    hide Flat, Ids, Allocated, Shape, Rep;
    KeysBound(tr, t, h, least);
    AllocatedSize(Ids(tr), free);
    FitsProduct(2 * t - 1, |Ids(tr)|);
  }

  lemma FitsProduct(a: nat, b: nat)
    requires a <= 253 && b <= 255
    ensures a * b <= 253 * 255
  {
    MulMono(a, 253, b);
  }

  lemma {:induction false} KidsLeast(kids: seq<Tree>, i: nat, t: nat, h: nat)
    requires i <= |kids| && h >= 1 && t >= 1 && forall j :: 0 <= j < |kids| ==> Shape(kids[j], t, h, t - 1)
    ensures Total(kids, i) + i >= i * Pow(t, h)
    decreases h, i
  {
    hide Flat, Shape;
    if i > 0 {
      KidsLeast(kids, i - 1, t, h);
      LeastKeys(kids[i - 1], t, h, t - 1);
      OneFewer(i, Pow(t, h));
    }
  }

  lemma OneFewer(i: nat, p: int)
    requires i > 0
    ensures i * p == (i - 1) * p + p
  {}

  /**
   The number of keys grows exponentially with the height: a tree of n keys has at most log_t((n+1)/(least+1)) + 1
   levels.
   */
  lemma {:induction false} LeastKeys(tr: Tree, t: nat, h: nat, least: nat)
    requires Shape(tr, t, h, least) && t >= 1
    ensures |Flat(tr)| + 1 >= (least + 1) * Pow(t, h - 1)
    decreases h, 0
  {
    hide Flat, Total;
    TotalIs(tr);
    if h > 1 {
      KidsLeast(tr.kids, |tr.kids|, t, h - 1);
      MulLeft(least + 1, |tr.kids|, Pow(t, h - 1));
    }
  }

  lemma MulLeft(a: nat, b: nat, p: nat)
    requires a <= b
    ensures a * p <= b * p
  {}
}
