/** The authority a certificate grants: sorted lists of items, "none", and "all". */
module CertAuth {

  type Item = x: int | 0 <= x < 0x1_0000_0000

  /** A list holding just this item means "all items". */
  const INVALID_ITEM: Item := 0xFFFF_FFFF

  predicate StrictlySorted(s: seq<Item>) {
    forall i, j | 0 <= i < j < |s| :: s[i] < s[j]
  }

  datatype CertAuthParameter = CertAuthParameter(items: seq<Item>) {
    predicate IsEmpty() { items == [] }

    predicate IsAll() { items == [INVALID_ITEM] }

    predicate HasItem(x: Item) { IsAll() || x in items }

    /** No item of the list is the reserved one, unless the list means "all". */
    predicate ReservedFree() { IsAll() || INVALID_ITEM !in items }
  }

  const ALL_ITEMS := CertAuthParameter([INVALID_ITEM])

  // ---------- Setup ----------

  predicate Sorted(s: seq<Item>) {
    forall i, j | 0 <= i < j < |s| :: s[i] <= s[j]
  }

  function Insert(x: Item, s: seq<Item>): seq<Item> {
    if s == [] || x <= s[0] then [x] + s else [s[0]] + Insert(x, s[1..])
  }

  /** The library sort. */
  function Sort(s: seq<Item>): seq<Item> {
    if s == [] then [] else Insert(s[0], Sort(s[1..]))
  }

  lemma {:induction false} InsertSorts(x: Item, s: seq<Item>)
    requires Sorted(s)
    ensures Sorted(Insert(x, s))
    ensures forall y :: y in Insert(x, s) <==> y == x || y in s
  {
    if s != [] && x > s[0] {
      InsertSorts(x, s[1..]);
      var rest := Insert(x, s[1..]);
      forall k | 0 <= k < |rest|
        ensures s[0] <= rest[k]
      {
        assert rest[k] in rest;
      }
    }
  }

  lemma {:induction false} SortSorts(s: seq<Item>)
    ensures Sorted(Sort(s))
    ensures forall y :: y in Sort(s) <==> y in s
  {
    if s != [] {
      SortSorts(s[1..]);
      InsertSorts(s[0], Sort(s[1..]));
    }
  }

  /** Erasing one of two equal neighbours keeps the set of items and the order. */
  lemma EraseDuplicate(s: seq<Item>, i: nat)
    requires 0 < i < |s| && Sorted(s) && StrictlySorted(s[i..]) && s[i - 1] == s[i]
    ensures var r := s[..i] + s[i + 1..];
            && Sorted(r) && StrictlySorted(r[i - 1..])
            && forall x :: x in r <==> x in s
  {
    var r := s[..i] + s[i + 1..];
    assert r[i - 1..] == s[i..];
    assert s == s[..i] + [s[i]] + s[i + 1..];
    assert s[i] == r[i - 1];
  }

  /** Sort the items and drop the duplicates: the result is the strictly sorted list of the
      set of inputs. */
  method Setup(list: seq<Item>) returns (p: CertAuthParameter)
    ensures StrictlySorted(p.items)
    ensures forall x :: x in p.items <==> x in list
  {
    var items := Sort(list);
    SortSorts(list);
    var i := |items| - 1;
    while i > 0
      invariant Sorted(items)
      invariant (items == [] && i == -1) || (0 <= i < |items| && StrictlySorted(items[i..]))
      invariant forall x :: x in items <==> x in list
    {
      if items[i - 1] == items[i] {
        EraseDuplicate(items, i);
        items := items[..i] + items[i + 1..];
      } else {
        assert items[i - 1..] == [items[i - 1]] + items[i..];
      }
      i := i - 1;
    }
    assert items[0..] == items;
    p := CertAuthParameter(items);
  }

  lemma StrictlySortedIsUnique(s: seq<Item>, t: seq<Item>)
    requires StrictlySorted(s) && StrictlySorted(t)
    requires forall x :: x in s <==> x in t
    ensures s == t
  {
    assert s != [] ==> s[0] in t;
    assert t != [] ==> t[0] in s;
    if s != [] {
      assert t[0] <= s[0] <= t[0];
      assert s == [s[0]] + s[1..] && t == [t[0]] + t[1..];
      forall x
        ensures x in s[1..] <==> x in t[1..]
      {
        assert x in s[1..] ==> x in s && x != s[0];
        assert x in t[1..] ==> x in t && x != t[0];
      }
      StrictlySortedIsUnique(s[1..], t[1..]);
    }
  }

  // ---------- Intersection ----------

  /** The elements of s that are also in t, in order. */
  function Common(s: seq<Item>, t: seq<Item>): seq<Item> {
    if s == [] then []
    else
      var k := |s| - 1;
      Common(s[..k], t) + if s[k] in t then [s[k]] else []
  }

  function Intersection(a: CertAuthParameter, b: CertAuthParameter): CertAuthParameter {
    if a.IsAll() then b else if b.IsAll() then a else CertAuthParameter(Common(a.items, b.items))
  }

  lemma {:induction false} CommonMembers(s: seq<Item>, t: seq<Item>)
    ensures forall x :: x in Common(s, t) <==> x in s && x in t
  {
    if s != [] {
      CommonMembers(s[..|s| - 1], t);
    }
  }

  lemma {:induction false} CommonIsSorted(s: seq<Item>, t: seq<Item>)
    requires StrictlySorted(s)
    ensures StrictlySorted(Common(s, t))
  {
    if s != [] {
      var front := s[..|s| - 1];
      CommonIsSorted(front, t);
      CommonMembers(front, t);
      forall k | 0 <= k < |Common(front, t)|
        ensures Common(front, t)[k] < s[|s| - 1]
      {
        assert Common(front, t)[k] in front;
      }
    }
  }

  lemma {:induction false} CommonOfPrefix(s: seq<Item>, t: seq<Item>, i: nat)
    requires i <= |s| && forall k | i <= k < |s| :: s[k] !in t
    ensures Common(s, t) == Common(s[..i], t)
    decreases |s|
  {
    if i < |s| {
      var k := |s| - 1;
      CommonOfPrefix(s[..k], t, i);
      assert s[..k][..i] == s[..i];
    } else {
      assert s[..i] == s;
    }
  }

  /** Merge two sorted lists, keeping what they share. */
  method SetIntersection(a: CertAuthParameter, b: CertAuthParameter) returns (r: CertAuthParameter)
    requires StrictlySorted(a.items) && StrictlySorted(b.items) && !a.IsEmpty() && !b.IsEmpty()
    ensures r == Intersection(a, b)
  {
    if a.IsAll() {
      return b;
    }
    if b.IsAll() {
      return a;
    }
    var items: seq<Item> := [];
    var s, t := a.items, b.items;
    var i, j := 0, 0;
    while true
      invariant 0 <= i < |s| && 0 <= j < |t|
      invariant items == Common(s[..i], t)
      invariant forall k | 0 <= k < j :: t[k] < s[i]
      decreases |s| - i + |t| - j
    {
      var va, vb := s[i], t[j];
      assert s[..i + 1][..i] == s[..i];
      if va < vb {
        assert va !in t;
        i := i + 1;
        if i == |s| { break; }
        assert s[i] > va;
      } else if vb < va {
        j := j + 1;
        if j == |t| { break; }
        assert t[j] > vb;
      } else {
        items := items + [va];
        i := i + 1;
        if i == |s| { break; }
        assert s[i] > va;
        j := j + 1;
        if j == |t| { break; }
        assert t[j] > vb;
      }
    }
    CommonOfPrefix(s, t, i);
    r := CertAuthParameter(items);
  }

  /** Two proper lists have exactly the reserved item in common, so that their intersection
      comes to mean "all". */
  predicate Widens(a: CertAuthParameter, b: CertAuthParameter) {
    !a.IsAll() && !b.IsAll() && Common(a.items, b.items) == [INVALID_ITEM]
  }

  /** An item is in an intersection just when it is in both lists, unless these widen. */
  lemma HasItemOfIntersection(a: CertAuthParameter, b: CertAuthParameter, x: Item)
    requires x != INVALID_ITEM
    ensures a.HasItem(x) && b.HasItem(x) ==> Intersection(a, b).HasItem(x)
    ensures (Intersection(a, b).HasItem(x) <==> a.HasItem(x) && b.HasItem(x)) <==> !Widens(a, b)
    ensures Widens(a, b) ==> !(a.HasItem(x) && b.HasItem(x))
  {
    CommonMembers(a.items, b.items);
  }

  /** Widening in terms of what the lists grant: nothing in common but the reserved item.
      Otherwise the intersection grants what both grant, the reserved item included. */
  lemma WidensByItems(a: CertAuthParameter, b: CertAuthParameter)
    requires StrictlySorted(a.items) && StrictlySorted(b.items) && !a.IsEmpty() && !b.IsEmpty()
    ensures Widens(a, b) <==> forall x :: a.HasItem(x) && b.HasItem(x) <==> x == INVALID_ITEM
    ensures !Widens(a, b) ==> forall x :: Intersection(a, b).HasItem(x) <==> a.HasItem(x) && b.HasItem(x)
  {
    hide Common, StrictlySorted;
    NotJustReserved(a);
    NotJustReserved(b);
    CommonMembers(a.items, b.items);
    var shared := Common(a.items, b.items);
    assert !a.IsAll() && !b.IsAll() ==> forall x :: x in shared <==> a.HasItem(x) && b.HasItem(x);
    CommonIsSorted(a.items, b.items);
    JustReserved(shared);
  }

  /** An intersection is not empty iff both lists grant something in common. */
  lemma CommonIffNotEmpty(a: CertAuthParameter, b: CertAuthParameter)
    requires StrictlySorted(a.items) && StrictlySorted(b.items) && !a.IsEmpty() && !b.IsEmpty()
    ensures !Intersection(a, b).IsEmpty() <==> exists x :: a.HasItem(x) && b.HasItem(x)
  {
    hide Common, StrictlySorted;
    CommonMembers(a.items, b.items);
    NotJustReserved(a);
    NotJustReserved(b);
    var shared := Common(a.items, b.items);
    if shared != [] {
      assert shared[0] in shared;
      assert a.HasItem(shared[0]) && b.HasItem(shared[0]);
    }
  }

  lemma JustReserved(s: seq<Item>)
    requires StrictlySorted(s)
    ensures (forall x :: x in s <==> x == INVALID_ITEM) <==> s == [INVALID_ITEM]
  {
    if forall x :: x in s <==> x == INVALID_ITEM {
      StrictlySortedIsUnique(s, [INVALID_ITEM]);
    }
  }

  /** Only the list meaning "all" consists of the reserved item alone. */
  lemma NotJustReserved(a: CertAuthParameter)
    requires StrictlySorted(a.items) && !a.IsEmpty()
    ensures exists x :: a.HasItem(x) && x != INVALID_ITEM
  {
    var some: Item := if a.IsAll() then 0 else a.items[0];
    assert |a.items| == 1 ==> a.items == [a.items[0]];
    assert |a.items| > 1 ==> a.items[0] < a.items[1];
    assert a.HasItem(some) && some != INVALID_ITEM;
  }

  lemma ReservedFreeIntersection(a: CertAuthParameter, b: CertAuthParameter)
    requires a.ReservedFree() && b.ReservedFree()
    ensures Intersection(a, b).ReservedFree() && !Widens(a, b)
    ensures forall x | x != INVALID_ITEM :: Intersection(a, b).HasItem(x) <==> a.HasItem(x) && b.HasItem(x)
  {
    CommonMembers(a.items, b.items);
  }

  /** Two certificates for apps 5 and 7 that both also list the reserved item: their
      intersection grants app 9, which neither grants. */
  lemma ReservedItemWidensIntersection()
    ensures var a, b := CertAuthParameter([5, 0xFFFF_FFFF]), CertAuthParameter([7, 0xFFFF_FFFF]);
            && Intersection(a, b) == ALL_ITEMS && !a.HasItem(9) && !b.HasItem(9)
            && Intersection(a, b).HasItem(9)
  {
    var s: seq<Item>, t: seq<Item> := [5, INVALID_ITEM], [7, INVALID_ITEM];
    assert s[..1] == [5] && s[..1][..0] == [];
    assert Common(s[..1], t) == [];
    assert Common(s, t) == [INVALID_ITEM];
  }

  lemma IntersectionIsSorted(a: CertAuthParameter, b: CertAuthParameter)
    requires StrictlySorted(a.items) && StrictlySorted(b.items)
    ensures StrictlySorted(Intersection(a, b).items)
  {
    CommonIsSorted(a.items, b.items);
  }

  // ---------- Scopes ----------

  const TIME_MAX := 0x7FFF_FFFF_FFFF_FFFF

  function Min(a: int, b: int): int {
    if b < a then b else a
  }

  datatype Right = App | Pop

  /** The rights a certificate, or a chain of them, is authorised to grant. */
  datatype CertAuthScope = CertAuthScope(pops: CertAuthParameter, apps: CertAuthParameter, timeExpiry: int) {
    function Of(right: Right): CertAuthParameter {
      if right.App? then apps else pops
    }

    /** Well-formed and not empty. */
    predicate Grants() {
      && StrictlySorted(pops.items) && StrictlySorted(apps.items)
      && !pops.IsEmpty() && !apps.IsEmpty() && timeExpiry > 0
    }
  }

  const FULL_SCOPE := CertAuthScope(ALL_ITEMS, ALL_ITEMS, TIME_MAX)
  const EMPTY_SCOPE := CertAuthScope(CertAuthParameter([]), CertAuthParameter([]), 0)

  function ScopeIntersection(a: CertAuthScope, b: CertAuthScope): CertAuthScope {
    CertAuthScope(Intersection(a.pops, b.pops), Intersection(a.apps, b.apps), Min(a.timeExpiry, b.timeExpiry))
  }

  /** Each right is granted iff both scopes grant it, unless the two lists share just the reserved
      item; and the earlier expiry counts. */
  method SetScopeIntersection(a: CertAuthScope, b: CertAuthScope) returns (r: CertAuthScope)
    requires a.Grants() && b.Grants()
    ensures r == ScopeIntersection(a, b)
    ensures r.Grants() <==> !r.apps.IsEmpty() && !r.pops.IsEmpty()
    ensures SharesJustReserved(a.pops, b.pops)
            || forall x :: r.pops.HasItem(x) <==> a.pops.HasItem(x) && b.pops.HasItem(x)
    ensures SharesJustReserved(a.apps, b.apps)
            || forall x :: r.apps.HasItem(x) <==> a.apps.HasItem(x) && b.apps.HasItem(x)
    ensures r.timeExpiry <= a.timeExpiry && r.timeExpiry <= b.timeExpiry
    ensures r.timeExpiry == a.timeExpiry || r.timeExpiry == b.timeExpiry
  {
    hide Common, StrictlySorted;
    var pops := SetIntersection(a.pops, b.pops);
    var apps := SetIntersection(a.apps, b.apps);
    IntersectionIsSorted(a.pops, b.pops);
    IntersectionIsSorted(a.apps, b.apps);
    WidensByItems(a.pops, b.pops);
    WidensByItems(a.apps, b.apps);
    r := CertAuthScope(pops, apps, Min(a.timeExpiry, b.timeExpiry));
  }

  /** Both lists grant the reserved item, and nothing else in common. */
  predicate SharesJustReserved(a: CertAuthParameter, b: CertAuthParameter) {
    forall x :: a.HasItem(x) && b.HasItem(x) <==> x == INVALID_ITEM
  }
}
