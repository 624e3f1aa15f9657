/** Binary heaps of times, smallest first, as sequences. */
module Heap {

  /** The slot above slot i. */
  function Parent(i: int): (p: int)
    requires i > 0
    ensures 0 <= p < i
  {
    (i + 1) / 2 - 1
  }

  /** Slot i is not smaller than the slot above it. */
  predicate Ordered(s: seq<int>, i: int) {
    0 < i < |s| ==> s[Parent(i)] <= s[i]
  }

  predicate IsHeap(s: seq<int>) {
    forall i | 0 < i < |s| :: Ordered(s, i)
  }

  /** Slots under k are not smaller than the slot above k. */
  predicate Bridged(s: seq<int>, k: int) {
    0 < k < |s| ==> forall c | 0 < c < |s| && Parent(c) == k :: s[Parent(k)] <= s[c]
  }

  /** A heap, except that slot k may be too small for its place. */
  predicate SmallAt(s: seq<int>, k: int) {
    && (forall i | 0 < i < |s| && i != k :: Ordered(s, i))
    && Bridged(s, k)
  }

  /** A heap, except that slot k may be too small or too large for its place. */
  predicate WrongAt(s: seq<int>, k: int) {
    && (forall i | 0 < i < |s| && i != k && Parent(i) != k :: Ordered(s, i))
    && Bridged(s, k)
  }

  function Swapped(s: seq<int>, a: int, b: int): (r: seq<int>)
    requires 0 <= a < |s| && 0 <= b < |s|
  {
    s[a := s[b]][b := s[a]]
  }

  lemma {:induction false} HeadIsLeast(s: seq<int>, i: int)
    requires IsHeap(s) && 0 <= i < |s|
    ensures s[0] <= s[i]
    decreases i
  {
    if i > 0 {
      assert Ordered(s, i);
      HeadIsLeast(s, Parent(i));
    }
  }

  lemma UpStep(s: seq<int>, k: int)
    requires 0 < k < |s| && SmallAt(s, k) && s[Parent(k)] > s[k]
    ensures SmallAt(Swapped(s, Parent(k), k), Parent(k))
  {
    var p := Parent(k);
    var r := Swapped(s, p, k);
    forall i | 0 < i < |s| && i != p
      ensures Ordered(r, i)
    {
      assert i != k ==> Ordered(s, i);
    }
    if p > 0 {
      assert Ordered(s, p);
      forall c | 0 < c < |s| && Parent(c) == p
        ensures r[Parent(p)] <= r[c]
      {
        assert c != k ==> Ordered(s, c);
      }
    }
  }

  lemma UpDone(s: seq<int>, k: int)
    requires 0 <= k < |s| && SmallAt(s, k) && Ordered(s, k)
    ensures IsHeap(s)
  {
  }

  /** The smaller child takes the place of k. */
  lemma DownStep(s: seq<int>, k: int, c: int)
    requires 0 <= k < |s| && WrongAt(s, k) && 0 < c < |s| && Parent(c) == k && s[c] < s[k]
    requires forall d | 0 < d < |s| && Parent(d) == k :: s[c] <= s[d]
    ensures var r := Swapped(s, k, c); WrongAt(r, c) && Ordered(r, c) && Ordered(r, k)
  {
    var r := Swapped(s, k, c);
    forall i | 0 < i < |s| && i != c && Parent(i) != c
      ensures Ordered(r, i)
    {
      assert i != k && Parent(i) != k ==> Ordered(s, i);
    }
    forall d | 0 < d < |s| && Parent(d) == c
      ensures r[Parent(c)] <= r[d]
    {
      assert Ordered(s, d);
    }
  }

  lemma DownDone(s: seq<int>, k: int)
    requires 0 <= k < |s| && WrongAt(s, k) && forall c | 0 < c < |s| && Parent(c) == k :: s[k] <= s[c]
    ensures SmallAt(s, k) && (Ordered(s, k) ==> IsHeap(s))
  {
  }

  /** Changing one slot leaves a heap that is wrong there only. */
  lemma ChangeSlot(s: seq<int>, k: int, x: int)
    requires IsHeap(s) && 0 <= k < |s|
    ensures WrongAt(s[k := x], k)
  {
    var r := s[k := x];
    forall i | 0 < i < |s| && i != k && Parent(i) != k
      ensures Ordered(r, i)
    {
      assert Ordered(s, i);
    }
    if k > 0 {
      assert Ordered(s, k);
      forall c | 0 < c < |s| && Parent(c) == k
        ensures r[Parent(k)] <= r[c]
      {
        assert Ordered(s, c);
      }
    }
  }

  lemma DropLast(s: seq<int>)
    requires IsHeap(s) && s != []
    ensures IsHeap(s[..|s| - 1])
  {
    var r := s[..|s| - 1];
    forall i | 0 < i < |r|
      ensures Ordered(r, i)
    {
      assert Ordered(s, i);
    }
  }

  lemma WrongUpTo(s: seq<int>, k: int, n: int)
    requires WrongAt(s, k) && 0 <= n <= |s|
    ensures WrongAt(s[..n], k)
  {
    var r := s[..n];
    forall i | 0 < i < n && i != k && Parent(i) != k
      ensures Ordered(r, i)
    {
      assert Ordered(s, i);
    }
  }

  /** Filling slot k from the end leaves a heap that is wrong there only. */
  lemma RemoveSlot(s: seq<int>, k: int)
    requires IsHeap(s) && 0 <= k < |s|
    ensures var r := s[k := s[|s| - 1]][..|s| - 1];
            if k < |r| then WrongAt(r, k) else IsHeap(r)
  {
    ChangeSlot(s, k, s[|s| - 1]);
    DropLast(s);
    WrongUpTo(s[k := s[|s| - 1]], k, |s| - 1);
    assert k == |s| - 1 ==> s[k := s[|s| - 1]] == s;
  }

  lemma AddLast(s: seq<int>, x: int)
    requires IsHeap(s)
    ensures SmallAt(s + [x], |s|)
  {
    forall i | 0 < i < |s|
      ensures Ordered(s + [x], i)
    {
      assert Ordered(s, i);
    }
  }
}

/** Thinkers, the priority queue they are scheduled in, and the loop that serves them. */
module Scheduler {
  import opened Heap

  /** The time of a thinker that does not want service. */
  const NEVER := 0x7FFF_FFFF_FFFF_FFFF

  type Time = x: int | -0x8000_0000_0000_0000 <= x <= NEVER

  /** A reading of the clock: positive, and far from overflow. */
  type Clock = x: int | 0 < x < NEVER - 2000 witness 1

  const NOT_QUEUED := -1

  class Thinker {
    var nextThinkTime: Time
    var queueIndex: int

    constructor ()
      ensures nextThinkTime == NEVER && queueIndex == NOT_QUEUED
    {
      nextThinkTime, queueIndex := NEVER, NOT_QUEUED;
    }
  }

  /** A binary heap of thinkers that tells each of them its slot. */
  class PriorityQueue {
    var heap: seq<Thinker>

    /** Every queued thinker knows its slot.  In particular no thinker is queued twice. */
    ghost predicate Indexed()
      reads this, heap
    {
      forall i | 0 <= i < |heap| :: heap[i].queueIndex == i
    }

    ghost function Times(): (s: seq<int>)
      reads this, heap
      ensures |s| == |heap|
    {
      seq(|heap|, i requires 0 <= i < |heap| reads this, heap => heap[i].nextThinkTime as int)
    }

    ghost function Queued(): set<Thinker>
      reads this
    {
      set t | t in heap
    }

    ghost predicate Valid()
      reads this, heap
    {
      Indexed() && IsHeap(Times())
    }

    constructor ()
      ensures heap == [] && Valid()
    {
      heap := [];
    }

    method Swap(parent: nat, child: nat)
      requires Indexed() && parent < child < |heap|
      modifies this, Queued()`queueIndex
      ensures Indexed() && Queued() == old(Queued()) && Times() == Swapped(old(Times()), parent, child)
    {
      ghost var before := heap;
      var tmp := heap[parent];
      heap := heap[parent := heap[child]];
      heap := heap[child := tmp];
      heap[parent].queueIndex := parent;
      heap[child].queueIndex := child;
      SameElements(before, heap, parent, child);
    }

    static lemma SameElements(a: seq<Thinker>, b: seq<Thinker>, i: nat, j: nat)
      requires i < |a| && j < |a| && b == a[i := a[j]][j := a[i]]
      ensures (set t | t in a) == (set t | t in b)
    {
      forall t | t in a
        ensures t in b
      {
        var k :| 0 <= k < |a| && a[k] == t;
        assert b[if k == i then j else if k == j then i else k] == t;
      }
      forall t | t in b
        ensures t in a
      {
        var k :| 0 <= k < |b| && b[k] == t;
        assert a[if k == i then j else if k == j then i else k] == t;
      }
    }

    /** Move a thinker up to its place. */
    method PercolateUp(start: nat) returns (index: nat)
      requires Indexed() && start < |heap| && SmallAt(Times(), start)
      modifies this, Queued()`queueIndex
      ensures Valid() && Queued() == old(Queued()) && index < |heap| == |old(heap)|
    {
      index := start;
      while index > 0
        invariant index < |heap| == |old(heap)| && Indexed() && Queued() == old(Queued())
        invariant SmallAt(Times(), index)
      {
        var parent := (index + 1) / 2 - 1;
        if !(heap[parent].nextThinkTime > heap[index].nextThinkTime) {
          break;
        }
        UpStep(Times(), index);
        Swap(parent, index);
        index := parent;
      }
      UpDone(Times(), index);
    }

    /** The child that should take the place of index, or index itself. */
    method Larger(index: nat) returns (larger: nat)
      requires index < |heap|
      ensures larger < |heap| && (larger == index || (larger > 0 && Parent(larger) == index))
      ensures larger != index ==> Times()[larger] < Times()[index]
      ensures forall c | 0 < c < |heap| && Parent(c) == index :: Times()[larger] <= Times()[c]
    {
      larger := index;
      var child := (index + 1) * 2 - 1;
      if child >= |heap| {
        return;
      }
      if heap[index].nextThinkTime > heap[child].nextThinkTime {
        larger := child;
      }
      child := child + 1;
      if child < |heap| {
        if heap[larger].nextThinkTime > heap[child].nextThinkTime {
          larger := child;
        }
      }
      forall c | 0 < c < |heap| && Parent(c) == index
        ensures Times()[larger] <= Times()[c]
      {
        assert c == 2 * index + 1 || c == 2 * index + 2;
      }
    }

    /** Move a thinker down to its place. */
    method PercolateDown(start: nat) returns (index: nat)
      requires Indexed() && start < |heap| && WrongAt(Times(), start)
      modifies this, Queued()`queueIndex
      ensures Indexed() && Queued() == old(Queued()) && index < |heap| == |old(heap)|
      ensures if index == start then SmallAt(Times(), index) else IsHeap(Times())
    {
      hide WrongAt, SmallAt, IsHeap, Ordered;
      index := start;
      while true
        invariant index < |heap| == |old(heap)| && Indexed() && Queued() == old(Queued())
        invariant WrongAt(Times(), index) && start <= index && (index != start ==> Ordered(Times(), index))
        decreases |heap| - index
      {
        var larger := Larger(index);
        if larger == index {
          break;
        }
        DownStep(Times(), index, larger);
        Swap(index, larger);
        index := larger;
      }
      DownDone(Times(), index);
    }

    /** Move a thinker whose time may have changed to its place. */
    method RevaluateElement(start: nat)
      requires Indexed() && start < |heap| && WrongAt(Times(), start)
      modifies this, Queued()`queueIndex
      ensures Valid() && Queued() == old(Queued())
    {
      var index := PercolateDown(start);
      if index == start {
        index := PercolateUp(index);
      }
    }

    method Insert(t: Thinker)
      requires Valid() && t.queueIndex == NOT_QUEUED
      modifies this, Queued()`queueIndex, t`queueIndex
      ensures Valid() && Queued() == old(Queued()) + {t}
    {
      AddLast(Times(), t.nextThinkTime);
      ghost var times := Times();
      heap := heap + [t];
      var index := |heap| - 1;
      t.queueIndex := index;
      assert Times() == times + [t.nextThinkTime];
      assert Queued() == old(Queued()) + {t};
      index := PercolateUp(index);
    }

    static lemma Removed(a: seq<Thinker>, i: nat, b: seq<Thinker>)
      requires i < |a| && (forall j, k | 0 <= j < k < |a| :: a[j] != a[k]) && b == a[i := a[|a| - 1]][..|a| - 1]
      ensures (set t | t in b) == (set t | t in a) - {a[i]}
    {
      forall t | t in a && t != a[i]
        ensures t in b
      {
        var k :| 0 <= k < |a| && a[k] == t;
        assert b[if k == |a| - 1 then i else k] == t;
      }
    }

    /** The last thinker takes the place of the one at index. */
    method FastRemove(index: nat)
      requires Valid() && index < |heap|
      modifies this
      ensures heap == old(heap[index := heap[|heap| - 1]][..|heap| - 1])
      ensures Queued() == old(Queued()) - {old(heap[index])}
      ensures var times := old(Times());
              Times() == times[index := times[|times| - 1]][..|times| - 1]
      ensures forall i | 0 <= i < |heap| && i != index :: heap[i].queueIndex == i
    {
      Removed(heap, index, heap[index := heap[|heap| - 1]][..|heap| - 1]);
      heap := heap[index := heap[|heap| - 1]][..|heap| - 1];
    }

    method RemoveAt(index: nat)
      requires Valid() && index < |heap|
      modifies this, Queued()`queueIndex
      ensures Valid() && Queued() == old(Queued()) - {old(heap[index])}
      ensures old(heap[index]).queueIndex == NOT_QUEUED
    {
      hide WrongAt, IsHeap;
      ghost var times := Times();
      RemoveSlot(times, index);
      var t := heap[index];
      FastRemove(index);
      t.queueIndex := NOT_QUEUED;
      if index < |heap| {
        heap[index].queueIndex := index;
        assert Times() == times[index := times[|times| - 1]][..|times| - 1];
        RevaluateElement(index);
      } else {
        assert Times() == times[..|times| - 1];
      }
    }
  }

  /** One request of a callback or of another thread, made at a given reading of the clock. */
  datatype Request =
    | SetTime(thinker: Thinker, target: Time, now: Clock)
    | EnsureMinTime(thinker: Thinker, target: Time, now: Clock)

  /** What the outside contributes to one round of the service loop: the clock, whether the
      lock of the next thinker is free, and what is requested while it thinks. */
  datatype Round = Round(now: Clock, lockFree: bool, requests: seq<Request>)

  type Times = map<Thinker, Time>

  /** The time that a request for `target` made at `now` means. */
  function Effective(target: Time, now: Clock): (t: Time)
    ensures t > 0
  {
    if target <= 0 then now + 2000 else target
  }

  /** What a request makes of the think times. */
  function Requested(r: Request, times: Times): (after: Times)
    requires r.thinker in times
    ensures after.Keys == times.Keys
  {
    var t := times[r.thinker];
    match r
    case SetTime(u, target, now) => if target == t then times else times[u := Effective(target, now)]
    case EnsureMinTime(u, target, now) => if target < t then times[u := Effective(target, now)] else times
  }

  function AllRequested(rs: seq<Request>, times: Times): (after: Times)
    requires forall r | r in rs :: r.thinker in times
    ensures after.Keys == times.Keys
  {
    if rs == [] then times else AllRequested(rs[1..], Requested(rs[0], times))
  }

  /** One round of the service loop: t, due first of all and strictly before the clock, is
      unscheduled and called, and what is requested meanwhile is done; or, with its lock taken,
      it is put off by a millisecond. */
  predicate Served(t: Thinker, round: Round, before: Times, after: Times) {
    && t in before && before[t] < round.now && (forall u | u in before :: before[t] <= before[u])
    && (forall r | r in round.requests :: r.thinker in before)
    && after
       == if round.lockFree then AllRequested(round.requests, before[t := NEVER]) else before[t := round.now + 1000]
  }

  /** A request in plain terms: a positive target is taken as it is, any other one as 2 ms from
      now; a minimum only ever moves the time down; no other thinker is touched. */
  lemma RequestedIs(r: Request, times: Times)
    requires r.thinker in times
    ensures var after, meant := Requested(r, times)[r.thinker], if r.target > 0 then r.target else r.now + 2000;
            && (r.SetTime? ==> after == if r.target == times[r.thinker] then r.target else meant)
            && (r.EnsureMinTime? ==> after == if r.target < times[r.thinker] then meant else times[r.thinker])
    ensures forall u | u in times && u != r.thinker :: Requested(r, times)[u] == times[u]
  {
  }

  /** Requests take effect in the order in which they are made. */
  lemma {:induction false} LastRequested(rs: seq<Request>, r: Request, times: Times)
    requires r.thinker in times && forall q | q in rs :: q.thinker in times
    ensures AllRequested([], times) == times
    ensures AllRequested(rs + [r], times) == Requested(r, AllRequested(rs, times))
  {
    hide Requested;
    if rs == [] {
      assert rs + [r] == [r] && [r][1..] == [];
      assert AllRequested([r], times) == AllRequested([r][1..], Requested([r][0], times));
    } else {
      assert (rs + [r])[1..] == rs[1..] + [r] && rs[0] in rs;
      LastRequested(rs[1..], r, Requested(rs[0], times));
    }
  }

  /** A round in plain terms: a thinker whose lock is taken is put off by a millisecond and
      nothing else happens; otherwise it wants no service, unless somebody asks for it. */
  lemma ServedIs(t: Thinker, round: Round, before: Times, after: Times)
    requires Served(t, round, before, after)
    ensures before[t] < round.now && forall u | u in before :: before[t] <= before[u]
    ensures after.Keys == before.Keys
    ensures !round.lockFree ==>
              after[t] == round.now + 1000 && forall u | u in before && u != t :: after[u] == before[u]
    ensures round.lockFree && round.requests == [] ==>
              after[t] == 0x7FFF_FFFF_FFFF_FFFF && forall u | u in before && u != t :: after[u] == before[u]
  {
  }

  const MAX_ITERATIONS := 10000

  class ThinkerTable {
    const queue: PriorityQueue
    var wakes: nat
    ghost var thinkers: set<Thinker>
    ghost var planned: int
    ghost var wakesAtPlan: nat

    /** A thinker is queued iff it wants service. */
    ghost predicate Consistent()
      reads this, queue, queue.heap, thinkers
    {
      && queue.Valid() && queue.Queued() <= thinkers
      && (forall t | t in thinkers :: t in queue.Queued() <==> t.nextThinkTime != NEVER)
      && (forall t | t in thinkers && t.nextThinkTime == NEVER :: t.queueIndex == NOT_QUEUED)
    }

    /** In addition, a service thread that planned to sleep until `planned` does not sleep too
        long: either nothing is due earlier, or it has been sent a wake-up since. */
    ghost predicate Valid()
      reads this, queue, queue.heap, thinkers
    {
      && Consistent()
      && wakesAtPlan <= wakes && (wakesAtPlan < wakes || planned <= Earliest())
    }

    /** The time of the head of the queue. */
    function Earliest(): int
      reads this, queue, queue.heap
    {
      if queue.heap == [] then NEVER else queue.heap[0].nextThinkTime
    }

    /** All think times. */
    ghost function TimesOf(): Times
      reads this, thinkers
    {
      map t | t in thinkers :: t.nextThinkTime
    }

    constructor (thinkers: set<Thinker>)
      requires forall t | t in thinkers :: t.nextThinkTime == NEVER && t.queueIndex == NOT_QUEUED
      ensures Valid() && this.thinkers == thinkers && wakes == 0 && fresh(queue)
    {
      queue := new PriorityQueue();
      wakes, this.thinkers, planned, wakesAtPlan := 0, thinkers, 0, 0;
      new;
    }

    /** The head of the queue is due first, and a thinker that wants service is in the slot it
        knows. */
    /** The earliest of all think times. */
    lemma EarliestIs()
      requires Consistent()
      ensures forall t | t in thinkers :: Earliest() <= t.nextThinkTime
      ensures Earliest() == 0x7FFF_FFFF_FFFF_FFFF || exists t :: t in thinkers && t.nextThinkTime == Earliest()
    {
      forall t | t in thinkers
        ensures Earliest() <= t.nextThinkTime
      {
        HeadIsFirst(t);
      }
      if queue.heap != [] {
        assert queue.heap[0] in queue.Queued();
      }
    }

    lemma HeadIsFirst(t: Thinker)
      requires Consistent() && t in thinkers
      ensures Earliest() <= t.nextThinkTime
      ensures t.nextThinkTime != NEVER ==> 0 <= t.queueIndex < |queue.heap| && queue.heap[t.queueIndex] == t
    {
      if t.nextThinkTime != NEVER {
        assert t in queue.Queued();
        var i :| 0 <= i < |queue.heap| && queue.heap[i] == t;
        HeadIsLeast(queue.Times(), i);
      }
    }

    method Unschedule(t: Thinker)
      requires Consistent() && t in thinkers
      modifies queue, thinkers`queueIndex, t`nextThinkTime
      ensures Consistent() && t.nextThinkTime == NEVER
    {
      hide IsHeap;
      if t.queueIndex >= 0 {
        HeadIsFirst(t);
        queue.RemoveAt(t.queueIndex);
      }
      t.nextThinkTime := NEVER;
    }

    method Schedule(t: Thinker, time: Time)
      requires Consistent() && t in thinkers && time != NEVER
      modifies queue, thinkers`queueIndex, t`nextThinkTime
      ensures Consistent() && t.nextThinkTime == time
    {
      hide IsHeap;
      HeadIsFirst(t);
      if t.queueIndex < 0 {
        t.nextThinkTime := time;
        queue.Insert(t);
      } else {
        ChangeSlot(queue.Times(), t.queueIndex, time);
        ghost var times := queue.Times();
        t.nextThinkTime := time;
        assert queue.Times() == times[t.queueIndex := time];
        hide WrongAt;
        queue.RevaluateElement(t.queueIndex);
      }
    }

    lemma AllAtLeast(bound: int)
      requires Consistent() && bound <= NEVER && forall t | t in thinkers :: bound <= t.nextThinkTime
      ensures bound <= Earliest()
    {
      if queue.heap != [] {
        assert queue.heap[0] in queue.Queued();
      }
    }

    method InternalSetNextThinkTime(t: Thinker, target: Time, now: Clock)
      requires Valid() && t in thinkers
      modifies this`wakes, queue, thinkers`queueIndex, t`nextThinkTime
      ensures Valid() && t.nextThinkTime == Effective(target, now)
      ensures t.nextThinkTime == if target > 0 then target else now + 2000
      ensures wakes == old(wakes) + if Effective(target, now) < old(Earliest()) then 1 else 0
    {
      hide PriorityQueue.Valid;
      forall u | u in thinkers
        ensures Earliest() <= u.nextThinkTime
      {
        HeadIsFirst(u);
      }
      ghost var earliest := Earliest();
      var time := Effective(target, now);
      if time == NEVER {
        Unschedule(t);
        AllAtLeast(earliest);
        return;
      }
      var nextWake := Earliest();
      Schedule(t, time);
      if t.nextThinkTime < nextWake {
        wakes := wakes + 1;
      } else {
        AllAtLeast(earliest);
      }
    }

    method SetNextThinkTime(t: Thinker, target: Time, now: Clock)
      requires Valid() && t in thinkers
      modifies this`wakes, queue, thinkers`queueIndex, t`nextThinkTime
      ensures Valid()
      ensures t.nextThinkTime == if target == old(t.nextThinkTime) then target else Effective(target, now)
      ensures TimesOf() == Requested(SetTime(t, target, now), old(TimesOf()))
      ensures wakes == old(wakes)
                       + if target != old(t.nextThinkTime) && Effective(target, now) < old(Earliest()) then 1 else 0
    {
      if target == t.nextThinkTime {
        return;
      }
      InternalSetNextThinkTime(t, target, now);
    }

    method EnsureMinThinkTime(t: Thinker, target: Time, now: Clock)
      requires Valid() && t in thinkers
      modifies this`wakes, queue, thinkers`queueIndex, t`nextThinkTime
      ensures Valid()
      ensures t.nextThinkTime == if target < old(t.nextThinkTime) then Effective(target, now) else old(t.nextThinkTime)
      ensures TimesOf() == Requested(EnsureMinTime(t, target, now), old(TimesOf()))
      ensures wakes == old(wakes)
                       + if target < old(t.nextThinkTime) && Effective(target, now) < old(Earliest()) then 1 else 0
    {
      if target < t.nextThinkTime {
        InternalSetNextThinkTime(t, target, now);
      }
    }

    /** The service thread asks until when it may sleep. */
    method GetNextScheduledThinkTime() returns (time: Time)
      requires Valid()
      modifies this`planned, this`wakesAtPlan
      ensures Valid() && time == Earliest() && planned == time && wakesAtPlan == wakes
      ensures forall t | t in thinkers :: time <= t.nextThinkTime
      ensures time == 0x7FFF_FFFF_FFFF_FFFF || exists t :: t in thinkers && t.nextThinkTime == time
    {
      EarliestIs();
      time := NEVER;
      if |queue.heap| > 0 {
        time := queue.heap[0].nextThinkTime;
      }
      planned, wakesAtPlan := time, wakes;
    }

    /** A callback: whatever it or other threads request while the table is unlocked. */
    method Think(t: Thinker, requests: seq<Request>)
      requires Valid() && t in thinkers && t.nextThinkTime == NEVER && t.queueIndex == NOT_QUEUED
      requires forall r | r in requests :: r.thinker in thinkers
      modifies this`wakes, queue, thinkers
      ensures Valid() && wakes >= old(wakes)
      ensures TimesOf() == AllRequested(requests, old(TimesOf()))
    {
      hide Consistent, Requested;
      ghost var all := AllRequested(requests, TimesOf());
      assert requests[0..] == requests;
      for i := 0 to |requests|
        invariant Valid() && wakes >= old(wakes)
        invariant AllRequested(requests[i..], TimesOf()) == all
      {
        assert requests[i..][0] == requests[i] && requests[i..][1..] == requests[i + 1..];
        match requests[i] {
          case SetTime(u, target, now) => SetNextThinkTime(u, target, now);
          case EnsureMinTime(u, target, now) => EnsureMinThinkTime(u, target, now);
        }
      }
      assert requests[|requests|..] == [];
    }

    /** Serve the head of the queue, or put it off if its lock is taken. */
    method ServeHead(round: Round) returns (t: Thinker)
      requires Valid() && queue.heap != [] && queue.heap[0].nextThinkTime < round.now
      requires forall r | r in round.requests :: r.thinker in thinkers
      modifies this`wakes, queue, thinkers
      ensures Valid() && wakes >= old(wakes)
      ensures Served(t, round, old(TimesOf()), TimesOf())
    {
      hide Consistent;
      t := queue.heap[0];
      HeadIsMember();
      ghost var before := TimesOf();
      if round.lockFree {
        InternalSetNextThinkTime(t, NEVER, round.now);
        assert TimesOf() == before[t := NEVER];
        Unqueued(t);
        Think(t, round.requests);
      } else {
        InternalSetNextThinkTime(t, round.now + 1000, round.now);
        assert TimesOf() == before[t := round.now + 1000];
      }
    }

    lemma HeadIsMember()
      requires Consistent() && queue.heap != []
      ensures queue.heap[0] in thinkers && forall t | t in thinkers :: queue.heap[0].nextThinkTime <= t.nextThinkTime
    {
      assert queue.heap[0] in queue.Queued();
      forall t | t in thinkers
        ensures queue.heap[0].nextThinkTime <= t.nextThinkTime
      {
        HeadIsFirst(t);
      }
    }

    lemma Unqueued(t: Thinker)
      requires Consistent() && t in thinkers && t.nextThinkTime == NEVER
      ensures t.queueIndex == NOT_QUEUED
    {
    }

    lemma NothingQueued()
      requires Consistent() && queue.heap == []
      ensures forall t | t in thinkers :: t.nextThinkTime == NEVER
    {
    }

    /** Serve whatever is due.  `rounds` is what the outside does in each round; `served` and
        `history` say who was served and what the think times were before, between and after
        the rounds.  The loop stops at the iteration limit, or when nothing is due any more by
        the last reading of the clock. */
    method ProcessThinkers(rounds: nat -> Round)
      returns (capped: bool, ghost served: seq<Thinker>, ghost history: seq<Times>)
      requires Valid() && forall i, r | r in rounds(i).requests :: r.thinker in thinkers
      modifies this`wakes, queue, thinkers
      ensures Valid() && wakes >= old(wakes)
      ensures |history| == |served| + 1 && history[0] == old(TimesOf()) && history[|served|] == TimesOf()
      ensures forall k | 0 <= k < |served| :: Served(served[k], rounds(k), history[k], history[k + 1])
      ensures if capped then |served| == 10000
              else forall t | t in thinkers :: t.nextThinkTime == NEVER || t.nextThinkTime >= rounds(|served|).now
    {
      hide Consistent, Served;
      capped, served, history := false, [], [TimesOf()];
      var iterations := 0;
      while |queue.heap| > 0
        invariant Valid() && iterations == |served| <= MAX_ITERATIONS && wakes >= old(wakes)
        invariant |history| == |served| + 1 && history[0] == old(TimesOf()) && history[|served|] == TimesOf()
        invariant forall k | 0 <= k < |served| :: Served(served[k], rounds(k), history[k], history[k + 1])
        decreases MAX_ITERATIONS - iterations
      {
        var round := rounds(iterations);
        HeadIsMember();
        if queue.heap[0].nextThinkTime >= round.now {
          return;
        }
        iterations := iterations + 1;
        if iterations > MAX_ITERATIONS {
          capped := true;
          return;
        }
        var t := ServeHead(round);
        served := served + [t];
        history := history + [TimesOf()];
      }
      NothingQueued();
    }
  }
}
