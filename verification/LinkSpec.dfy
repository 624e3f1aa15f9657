/** What a link tracker does with packets, intervals and re-bases, told with sets of packet
    numbers instead of masks, and what holds of every run. */
module LinkSpec {
  import opened Arithmetic
  import opened ReceiveWindow
  import opened Wrappers

  // ---------- Counters ----------

  /** Counters of one statistics interval. */
  datatype SequencedPacketCounters = SequencedPacketCounters(
    recv: int, dropped: int, outOfOrder: int, outOfOrderCorrected: int, lurch: int, duplicate: int)
  {
    function Weird(): int {
      outOfOrder + lurch + duplicate
    }

    predicate NonNegative() {
      recv >= 0 && dropped >= 0 && outOfOrder >= 0 && outOfOrderCorrected >= 0 && lurch >= 0 && duplicate >= 0
    }

    function OnRecv(): SequencedPacketCounters { this.(recv := recv + 1) }

    function OnDropped(n: int): SequencedPacketCounters { this.(dropped := dropped + n) }

    function OnDuplicate(): SequencedPacketCounters { this.(duplicate := duplicate + 1) }

    function OnLurch(): SequencedPacketCounters { this.(lurch := lurch + 1) }

    // A late packet was counted as dropped before, perhaps in an earlier interval.
    function OnOutOfOrder(): SequencedPacketCounters {
      this.(outOfOrder := outOfOrder + 1, dropped := if dropped > 0 then dropped - 1 else dropped)
    }
  }

  const NO_COUNTS := SequencedPacketCounters(0, 0, 0, 0, 0, 0)

  /** Counters of the intervals that have ended. */
  datatype Totals = Totals(dropped: int, outOfOrder: int, duplicate: int, lurch: int) {
    function Plus(c: SequencedPacketCounters): Totals {
      Totals(dropped + c.dropped, outOfOrder + c.outOfOrder, duplicate + c.duplicate, lurch + c.lurch)
    }
  }

  const NO_TOTALS := Totals(0, 0, 0, 0)

  /** The quality of an interval, in percent of the packets that must have been sent. */
  function Quality(recv: int, dropped: int, weird: int): int
    requires recv + dropped > 0
  {
    (recv - weird) * 100 / (recv + dropped)
  }

  lemma QualityRange(recv: int, dropped: int, weird: int)
    requires 0 <= weird <= recv && 0 <= dropped && recv > 0 && dropped + weird > 0
    ensures 0 <= Quality(recv, dropped, weird) <= 99
    ensures Quality(recv, dropped, weird) == 99 ==> 100 * (dropped + weird) <= recv + dropped
  {
    QuotientBounds((recv - weird) * 100, recv + dropped, 99);
  }

  lemma QuotientBounds(a: int, b: int, q: int)
    requires 0 <= a < b * (q + 1) && b > 0
    ensures 0 <= a / b <= q
    ensures a / b == q ==> a >= b * q
  {
    var r := a / b;
    assert a == b * r + a % b;
    ProductGrows(b, q + 1, r);
    ProductGrows(b, r, -1);
  }

  /** The quality sample that an interval gives, if any. */
  function Sample(c: SequencedPacketCounters, elapsed: real, peerLooksDead: bool): Option<int>
    requires c.NonNegative()
  {
    if elapsed <= 4.5 then None
    else if c.recv <= 5 then if peerLooksDead then Some(0) else None
    else if c.dropped + c.Weird() == 0 then Some(100)
    else
      var q := Quality(c.recv, c.dropped, c.Weird());
      Some(if q >= 99 then 99 else if q <= 1 then 1 else q)
  }

  /** When a sample is due, and how it is to be read: 100 means that nothing was bad, 0 that the
      peer looks dead.  In between it is the share of good packets in all that must have been
      sent, in whole percent, where 1 also stands for less and 99 for more. */
  lemma SampleMeaning(c: SequencedPacketCounters, elapsed: real, peerLooksDead: bool)
    requires c.NonNegative() && c.Weird() <= c.recv
    ensures var s := Sample(c, elapsed, peerLooksDead);
            var bad := c.dropped + c.outOfOrder + c.lurch + c.duplicate;
            var sent, good := c.recv + c.dropped, c.recv - c.outOfOrder - c.lurch - c.duplicate;
            if elapsed > 4.5 && c.recv > 5 then
              && s.Some? && 1 <= s.value <= 100 && (s.value == 100 <==> bad == 0)
              && (s.value == 99 <==> bad > 0 && 99 * sent <= 100 * good)
              && (s.value == 1 <==> 100 * good < 2 * sent)
              && (1 < s.value < 99 ==> s.value * sent <= 100 * good < (s.value + 1) * sent)
            else s == if elapsed > 4.5 && peerLooksDead then Some(0) else None
  {
    if c.recv > 5 && c.dropped + c.Weird() > 0 {
      QualityRange(c.recv, c.dropped, c.Weird());
      QualityIs(c.recv, c.dropped, c.Weird());
    }
    hide Quality;
  }

  lemma QualityIs(recv: int, dropped: int, weird: int)
    requires 0 <= weird <= recv && 0 <= dropped && recv > 0
    ensures var q, sent, good := Quality(recv, dropped, weird), recv + dropped, recv - weird;
            && (q >= 99 <==> 99 * sent <= 100 * good) && (q <= 1 <==> 100 * good < 2 * sent)
            && q * sent <= 100 * good < (q + 1) * sent
  {
    var q, sent, good := Quality(recv, dropped, weird), recv + dropped, recv - weird;
    FloorIs(good * 100, sent, q);
    ProductGrows(sent, 99, q);
    ProductGrows(sent, q + 1, 99);
    ProductGrows(sent, 2, q);
    ProductGrows(sent, q + 1, 2);
    hide Quality;
  }

  lemma FloorIs(a: int, b: int, q: int)
    requires b > 0 && q == a / b
    ensures q * b <= a < (q + 1) * b && b * q == q * b && b * (q + 1) == (q + 1) * b
  {
  }

  // ---------- The state ----------

  /** All that a tracker knows: the highest number, the last re-base, the numbers processed
      since, those seen on each path, and its counters. */
  datatype Link = Link(
    max: int, init: int, processed: set<int>, seen: seq<set<int>>,
    counts: SequencedPacketCounters, totals: Totals,
    sequenced: int, inOrder: int, recvSeq: seq<int>, recvLater: seq<int>)
  {
    predicate Valid() {
      && |seen| == |recvSeq| == |recvLater| == 2 && processed == seen[0] + seen[1]
      && 0 <= init <= max && (max == init || max in processed) && (forall k | k in processed :: 0 < k <= max)
      && counts.NonNegative() && counts.Weird() <= counts.recv && totals.dropped >= 0
      && Excess() >= 0
    }

    /** The number of packets reported as lost. */
    function Dropped(): int {
      totals.dropped + counts.dropped
    }

    /** How many numbers since the last re-base never arrived. */
    function NeverArrived(): nat {
      Missing(init, max, processed)
    }

    /** How many more losses are reported than there are numbers that never arrived. */
    function Excess(): int {
      Dropped() - NeverArrived()
    }

    /** e has neither been processed nor fallen out of the window. */
    predicate Fresh(e: int) {
      e > max || (Base(max) - 64 <= e && e > init && e !in processed)
    }
  }

  /** A tracker that has seen nothing. */
  predicate IsStart(s: Link) {
    && s.max == 0 && s.init == 0 && s.processed == {} && s.seen == [{}, {}]
    && s.counts == NO_COUNTS && s.totals == NO_TOTALS
    && s.sequenced == 0 && s.inOrder == 0 && s.recvSeq == s.recvLater == [0, 0]
  }

  function UpTo(s: set<int>, n: int): set<int> {
    set k | k in s && k <= n
  }

  // ---------- The steps ----------

  /** Expect n + 1 next and discard everything up to n.  What was processed above n is
      forgotten. */
  function Rebase(s: Link, n: int): Link
    requires |s.seen| == 2
  {
    s.(max := n, init := n, processed := UpTo(s.processed, n), seen := [UpTo(s.seen[0], n), UpTo(s.seen[1], n)])
  }

  function Counted(s: Link, path: int): Link
    requires 0 <= path < 2 && |s.recvSeq| == 2
  {
    s.(counts := s.counts.OnRecv(), sequenced := s.sequenced + 1, recvSeq := s.recvSeq[path := s.recvSeq[path] + 1])
  }

  /** The check of a packet that comes in by a path: the number to process, or 0. */
  function Check(s: Link, wire: int, path: int): (Link, int)
    requires 0 <= path < 2 && |s.seen| == |s.recvSeq| == |s.recvLater| == 2
  {
    var e := Expand(wire, s.max);
    var t := Counted(s, path);
    if e > s.max then (t, e)
    else if e < Base(s.max) - 64 then (t.(counts := t.counts.OnLurch()), 0)
    else if s.Fresh(e) then (t, e)
    else if e <= s.init || e in s.seen[path] then (t.(counts := t.counts.OnDuplicate()), 0)
    else (t.(seen := s.seen[path := s.seen[path] + {e}], recvLater := s.recvLater[path := s.recvLater[path] + 1]), 0)
  }

  /** A packet that has passed the check is recorded. */
  function Track(s: Link, n: int, path: int): Link
    requires 0 <= path < 2 && |s.seen| == 2
  {
    var t := s.(processed := s.processed + {n}, seen := s.seen[path := s.seen[path] + {n}]);
    var gap := n - s.max;
    if gap == 1 then t.(max := n, inOrder := s.inOrder + 1)
    else if gap <= 0 then t.(counts := s.counts.OnOutOfOrder())
    else if gap >= 100 then Rebase(t.(counts := s.counts.OnLurch()), n)
    else t.(max := n, counts := s.counts.OnDropped(gap - 1))
  }

  /** The window adopts the first wire number that comes in. */
  function MaybeInitialize(s: Link, wire: int): Link
    requires |s.seen| == 2
  {
    if s.max == 0 then Rebase(s, (wire - 1) % 0x1_0000) else s
  }

  datatype Event =
    | Packet(wire: int, path: int, authentic: bool, mayInitialize: bool)
    | IntervalEnd(elapsed: real, peerLooksDead: bool)
    | Handshake(protocol: int)
  {
    predicate Possible() {
      Packet? ==> 0 <= wire < 0x1_0000 && 0 <= path < 2
    }
  }

  datatype Outcome = Accepted(n: int) | Rejected | Sampled(sample: Option<int>) | Settled

  /** One packet: the check and, if the packet turns out to be authentic, its tracking. */
  function Receive(s: Link, wire: int, path: int, authentic: bool, mayInitialize: bool): (Link, Outcome)
    requires 0 <= path < 2 && |s.seen| == |s.recvSeq| == |s.recvLater| == 2
  {
    var (t, n) := Check(if mayInitialize then MaybeInitialize(s, wire) else s, wire, path);
    if n != 0 && authentic then (Track(t, n, path), Accepted(n)) else (t, Rejected)
  }

  function EndInterval(s: Link): Link {
    s.(counts := NO_COUNTS, totals := s.totals.Plus(s.counts))
  }

  /** From protocol 10 on the handshake itself counts as packet 1. */
  function OnHandshake(s: Link, protocol: int): Link
    requires |s.seen| == 2
  {
    if protocol >= 10 && s.max == 0 then Rebase(s, 1) else s
  }

  function After(s: Link, e: Event): (Link, Outcome)
    requires s.Valid() && e.Possible()
  {
    match e
    case Packet(wire, path, authentic, mayInitialize) => Receive(s, wire, path, authentic, mayInitialize)
    case IntervalEnd(elapsed, dead) => (EndInterval(s), Sampled(Sample(s.counts, elapsed, dead)))
    case Handshake(protocol) => (OnHandshake(s, protocol), Settled)
  }

  // ---------- What each step keeps ----------

  lemma UpToAll(s: set<int>, n: int)
    requires forall k | k in s :: k <= n
    ensures UpTo(s, n) == s
  {
  }

  /** Re-basing upwards forgets no number, and makes losses of all that were still missing. */
  lemma RebaseUp(s: Link, n: int)
    requires s.Valid() && s.max <= n
    ensures var t := Rebase(s, n);
            t.Valid() && t.processed == s.processed && t.seen == s.seen && t.Excess() == s.Excess() + s.NeverArrived()
  {
    UpToAll(s.processed, n);
    UpToAll(s.seen[0], n);
    UpToAll(s.seen[1], n);
    assert Missing(n, n, s.processed) == 0;
  }

  /** The branches of the check, one by one. */
  lemma CheckCases(s: Link, wire: int, path: int, e: int)
    requires s.Valid() && 0 <= path < 2 && e == Expand(wire, s.max)
    ensures var t := Counted(s, path);
            && (e > s.max ==> Check(s, wire, path) == (t, e))
            && (e < Base(s.max) - 64 ==> Check(s, wire, path) == (t.(counts := t.counts.OnLurch()), 0))
            && (Base(s.max) - 64 <= e <= s.max && !(e <= s.init || e in s.processed)
                ==> Check(s, wire, path) == (t, e) && 0 < e < s.max)
            && (Base(s.max) - 64 <= e <= s.max && (e <= s.init || e in s.processed) ==>
                  Check(s, wire, path)
                  == if e <= s.init || e in s.seen[path] then (t.(counts := t.counts.OnDuplicate()), 0)
                     else (t.(seen := s.seen[path := s.seen[path] + {e}],
                              recvLater := s.recvLater[path := s.recvLater[path] + 1]), 0))
  {
    hide Expand, Missing;
  }

  lemma RebaseInPlace(s: Link, n: int)
    requires s.Valid() && n == s.max == s.init
    ensures Rebase(s, n) == s
  {
    RebaseUp(s, n);
    hide Link.Valid, UpTo;
  }

  lemma CheckKeeps(s: Link, wire: int, path: int)
    requires s.Valid() && 0 <= path < 2
    ensures var (t, n) := Check(s, wire, path);
            && s == t.(
                 seen := s.seen, counts := s.counts, sequenced := s.sequenced,
                 recvSeq := s.recvSeq, recvLater := s.recvLater)
            && t.Valid() && t.Excess() == s.Excess() && t.counts.Weird() + (if n != 0 then 1 else 0) <= t.counts.recv
            && n == (if s.Fresh(Expand(wire, s.max)) then Expand(wire, s.max) else 0)
            && (n != 0 ==> n > 0 && n !in s.processed && t.Fresh(n))
  {
    hide Expand, Missing, Base;
  }

  /** How many losses a tracking step reports beyond the numbers that never arrived: one for a
      late packet when the interval counts no loss to take back, and all that is missing when a
      gap of 100 or more re-bases the window. */
  function TrackSlip(s: Link, n: int): nat {
    if n < s.max && s.counts.dropped == 0 then 1
    else if n - s.max >= 100 then s.NeverArrived()
    else 0
  }

  lemma TrackKeeps(s: Link, n: int, path: int)
    requires s.Valid() && s.Fresh(n) && n > 0 && 0 <= path < 2 && s.counts.Weird() < s.counts.recv
    ensures var t := Track(s, n, path);
            && t.Valid() && t.processed == s.processed + {n}
            && t.Excess() == s.Excess() + TrackSlip(s, n)
            && (n < s.max ==> s.Dropped() > 0)
  {
    var hi := if n > s.max then n else s.max;
    MissingAfterArrival(s.init, hi, s.processed, n);
    MissingAfterGap(s.init, s.max, hi, s.processed);
    hide Base;
    if n - s.max >= 100 {
      var seen := s.seen[path := s.seen[path] + {n}];
      var t := s.(processed := s.processed + {n}, seen := seen, counts := s.counts.OnLurch());
      UpToAll(t.processed, n);
      UpToAll(t.seen[0], n);
      UpToAll(t.seen[1], n);
      assert Missing(n, n, t.processed) == 0;
      hide Missing;
    } else {
      hide Missing;
    }
  }

  /** The packet number, if any, that an event gets recorded, and the state it finds. */
  function Tracked(s: Link, e: Event): Option<(Link, int)>
    requires s.Valid() && e.Possible()
  {
    if e.Packet? && e.authentic then
      var (t, n) := Check(if e.mayInitialize then MaybeInitialize(s, e.wire) else s, e.wire, e.path);
      if n != 0 then Some((t, n)) else None
    else None
  }

  /** How many losses an event reports beyond the numbers that never arrived. */
  function Slip(s: Link, e: Event): nat
    requires s.Valid() && e.Possible()
  {
    var tracked := Tracked(s, e);
    if tracked.None? then 0 else TrackSlip(tracked.value.0, tracked.value.1)
  }

  lemma FirstRebase(s: Link, n: int)
    requires s.Valid() && s.max == 0 && n >= 0
    ensures Rebase(s, n).Valid() && Rebase(s, n).Excess() == s.Excess() && Rebase(s, n).processed == s.processed
  {
    RebaseUp(s, n);
    assert s.NeverArrived() == 0;
  }

  lemma AdoptionKeeps(s: Link, wire: int)
    requires s.Valid()
    ensures MaybeInitialize(s, wire).Valid() && MaybeInitialize(s, wire).Excess() == s.Excess()
    ensures MaybeInitialize(s, wire).processed == s.processed
  {
    if s.max == 0 {
      FirstRebase(s, (wire - 1) % 0x1_0000);
    }
    hide Link.Valid, Link.Excess;
  }

  lemma EndIntervalKeeps(s: Link)
    requires s.Valid()
    ensures EndInterval(s).Valid() && EndInterval(s).Excess() == s.Excess()
  {
    hide Missing;
  }

  /** Every event keeps the state valid, reports losses beyond those that are real exactly as
      Slip says, and accepts only a positive number never processed before. */
  lemma StepKeeps(s: Link, e: Event)
    requires s.Valid() && e.Possible()
    ensures var (t, outcome) := After(s, e);
            && t.Valid() && t.Excess() == s.Excess() + Slip(s, e)
            && (match outcome
                case Accepted(n) => n > 0 && n !in s.processed && t.processed == s.processed + {n}
                case _ => t.processed == s.processed)
  {
    match e {
      case Packet(wire, path, authentic, mayInitialize) =>
        var s0 := if mayInitialize then MaybeInitialize(s, wire) else s;
        if mayInitialize && s.max == 0 {
          FirstRebase(s, (wire - 1) % 0x1_0000);
        }
        CheckKeeps(s0, wire, path);
        var (t, n) := Check(s0, wire, path);
        if n != 0 && authentic {
          assert t.Fresh(n);
          TrackKeeps(t, n, path);
        }
        hide Check, Track, Link.Valid, Link.Excess, Link.Fresh, Rebase, TrackSlip;
      case IntervalEnd(_, _) =>
        EndIntervalKeeps(s);
      case Handshake(protocol) =>
        if protocol >= 10 && s.max == 0 {
          FirstRebase(s, 1);
        }
    }
  }

  // ---------- Whole runs ----------

  predicate Possible(events: seq<Event>) {
    forall e | e in events :: e.Possible()
  }

  /** The state after the first k events, from s0 on. */
  function State(s0: Link, events: seq<Event>, k: nat): (s: Link)
    requires s0.Valid() && Possible(events) && k <= |events|
    ensures s.Valid()
  {
    if k == 0 then s0
    else
      StepKeeps(State(s0, events, k - 1), events[k - 1]);
      After(State(s0, events, k - 1), events[k - 1]).0
  }

  lemma StartIsValid(s: Link)
    requires IsStart(s)
    ensures s.Valid() && s.Excess() == 0
  {
    assert Missing(s.init, s.max, s.processed) == 0;
  }

  lemma StartInPlace(s: Link)
    requires IsStart(s)
    ensures s.Valid() && |s.seen| == 2 && s.processed == s.seen[0] + s.seen[1] && s.max >= 0
    ensures Rebase(s, s.max) == s
  {
    StartIsValid(s);
    RebaseInPlace(s, s.max);
    hide Link.Valid, Rebase;
  }

  /** What comes of event k. */
  function OutcomeOf(s0: Link, events: seq<Event>, k: nat): Outcome
    requires s0.Valid() && Possible(events) && k < |events|
  {
    After(State(s0, events, k), events[k]).1
  }

  lemma StateAtFirst(s0: Link, events: seq<Event>, k: nat)
    requires s0.Valid() && Possible(events) && k == 0
    ensures State(s0, events, k) == s0
  {
    hide After, Link.Valid;
  }

  /** State and outcome of each event come of the step it takes. */
  lemma RunStep(s0: Link, events: seq<Event>, k: nat)
    requires s0.Valid() && Possible(events) && k < |events|
    ensures var (t, outcome) := After(State(s0, events, k), events[k]);
            State(s0, events, k + 1) == t && OutcomeOf(s0, events, k) == outcome
  {
    hide After, Link.Valid;
  }

  /** What one event of a run does. */
  lemma RunStepKeeps(s0: Link, events: seq<Event>, k: nat)
    requires s0.Valid() && Possible(events) && k < |events|
    ensures var s, t := State(s0, events, k), State(s0, events, k + 1);
            && t.Excess() == s.Excess() + Slip(s, events[k])
            && (match OutcomeOf(s0, events, k)
                case Accepted(n) => n > 0 && n !in s.processed && t.processed == s.processed + {n}
                case _ => t.processed == s.processed)
  {
    hide After, State, OutcomeOf, Slip, Link.Valid, Missing;
    RunStep(s0, events, k);
    StepKeeps(State(s0, events, k), events[k]);
  }

  /** What has been processed is exactly what was at first and what has been accepted since. */
  lemma {:induction false} ProcessedIsAccepted(s0: Link, events: seq<Event>, k: nat, n: int)
    requires s0.Valid() && Possible(events) && k <= |events|
    ensures n in State(s0, events, k).processed
       <==> n in s0.processed || exists i: nat | i < k :: OutcomeOf(s0, events, i) == Accepted(n)
    decreases k
  {
    hide State, OutcomeOf, Slip, Link.Excess;
    if k == 0 {
      StateAtFirst(s0, events, k);
    } else {
      ProcessedIsAccepted(s0, events, k - 1, n);
      RunStepKeeps(s0, events, k - 1);
    }
  }

  /** Whatever arrives, on whichever path, with intervals ending and windows adopted in between:
      only positive numbers are accepted, and none twice. */
  lemma AcceptedOnce(s0: Link, events: seq<Event>, i: nat, j: nat)
    requires s0.Valid() && Possible(events) && i < j < |events|
    requires OutcomeOf(s0, events, i).Accepted? && OutcomeOf(s0, events, j).Accepted?
    ensures OutcomeOf(s0, events, i).n > 0 && OutcomeOf(s0, events, j).n > 0
    ensures OutcomeOf(s0, events, i).n != OutcomeOf(s0, events, j).n
  {
    hide State, OutcomeOf, Slip, Link.Excess;
    var n := OutcomeOf(s0, events, i).n;
    ProcessedIsAccepted(s0, events, j, n);
    RunStepKeeps(s0, events, i);
    RunStepKeeps(s0, events, j);
  }

  lemma ReceiveFresh(s: Link, wire: int, path: int, authentic: bool, number: int)
    requires s.Valid() && 0 <= path < 2 && wire == number % 0x1_0000
    requires s.max - 0x8000 <= number < s.max + 0x8000
    ensures Receive(s, wire, path, authentic, false).1
         == if authentic && s.Fresh(number) then Accepted(number) else Rejected
  {
    ExpandRecovers(number, s.max);
    hide Expand;
    CheckKeeps(s, wire, path);
    assert s.Fresh(number) ==> number != 0;
    hide Check, Track, Link.Valid, Link.Fresh;
  }

  /** An authentic packet whose true number is within 2^15 of the maximum is accepted under that
      number iff the number is fresh; nothing else is ever accepted in its place. */
  lemma TrueNumberRecovered(s0: Link, events: seq<Event>, k: nat, number: int)
    requires s0.Valid() && Possible(events) && k < |events| && events[k].Packet? && events[k].wire == number % 0x1_0000
    requires events[k].mayInitialize ==> State(s0, events, k).max != 0
    requires State(s0, events, k).max - 0x8000 <= number < State(s0, events, k).max + 0x8000
    ensures OutcomeOf(s0, events, k)
         == if events[k].authentic && State(s0, events, k).Fresh(number) then Accepted(number) else Rejected
  {
    hide State, OutcomeOf, Check, Track, Receive, Link.Valid, Link.Fresh;
    RunStep(s0, events, k);
    NoAdoption(State(s0, events, k), events[k]);
    ReceiveFresh(State(s0, events, k), events[k].wire, events[k].path, events[k].authentic, number);
  }

  /** What one packet counts as, by its expanded number alone. */
  lemma CountersOf(s: Link, wire: int, path: int, authentic: bool)
    requires s.Valid() && 0 <= wire < 0x1_0000 && 0 <= path < 2
    ensures var (t, outcome) := Receive(s, wire, path, authentic, false);
            var e := Expand(wire, s.max);
            var ahead, tooOld := e > s.max, e < s.max / 64 * 64 - 64;
            var inWindow := !ahead && !tooOld;
            var before := e <= s.init || e in s.seen[path];
            var late := inWindow && e > s.init && e !in s.processed;
            && t.counts.recv == s.counts.recv + 1 && t.sequenced == s.sequenced + 1
            && t.recvSeq == s.recvSeq[path := s.recvSeq[path] + 1]
            && t.counts.lurch == s.counts.lurch + (if tooOld || (authentic && e - s.max >= 100) then 1 else 0)
            && t.counts.duplicate == s.counts.duplicate + (if inWindow && before then 1 else 0)
            && t.recvLater == (if inWindow && !before && !late then s.recvLater[path := s.recvLater[path] + 1]
                               else s.recvLater)
            && t.counts.outOfOrder == s.counts.outOfOrder + (if authentic && late then 1 else 0)
            && t.counts.dropped == s.counts.dropped
                                   + (if authentic && 1 < e - s.max < 100 then e - s.max - 1
                                      else if authentic && late && s.counts.dropped > 0 then -1 else 0)
            && t.inOrder == s.inOrder + (if authentic && e == s.max + 1 then 1 else 0)
            && t.counts.outOfOrderCorrected == s.counts.outOfOrderCorrected && t.totals == s.totals
  {
    hide Expand, Missing;
    var e := Expand(wire, s.max);
    CheckCases(s, wire, path, e);
    CheckKeeps(s, wire, path);
    hide Check, Link.Valid;
  }

  /** What the handshake of protocol 10 means for the receiving side of a fresh link: it takes
      packet 1's place, and packet 2 is the next in order. */
  lemma HandshakeIsPacketOne(s: Link, protocol: int, path: int, n: int)
    requires IsStart(s) && 0 <= path < 2 && 1 <= n < 0x8000
    ensures var t := OnHandshake(s, protocol);
            && s.Valid() && t.Valid()
            && Receive(t, n, path, true, false).1 == (if protocol >= 10 && n == 1 then Rejected else Accepted(n))
            && (n == (if protocol >= 10 then 2 else 1) ==>
                  var r := Receive(t, n, path, true, false).0;
                  r.inOrder == 1 && r.counts.dropped == 0 && r.counts.Weird() == 0)
  {
    hide Receive, Missing, Expand, Link.Valid;
    var t := OnHandshake(s, protocol);
    FreshAfterHandshake(s, protocol, n);
    ReceiveFresh(t, n, path, true, n);
    CountersOf(t, n, path, true);
    ExpandRecovers(n, t.max);
  }

  lemma FreshAfterHandshake(s: Link, protocol: int, n: int)
    requires IsStart(s) && n >= 1
    ensures var t := OnHandshake(s, protocol);
            && s.Valid() && t.Valid() && t.max == t.init == (if protocol >= 10 then 1 else 0)
            && t.processed == {} && |t.seen| == 2 && t.seen[0] == t.seen[1] == {}
            && t.counts == NO_COUNTS && t.inOrder == 0
            && (t.Fresh(n) <==> !(protocol >= 10 && n == 1))
  {
    hide Missing;
    StartIsValid(s);
    if protocol >= 10 {
      var one := 1;
      FirstRebase(s, one);
    }
  }

  /** Ending an interval moves its counts to the totals; none is lost. */
  lemma TotalsConserved(s: Link)
    ensures var t := EndInterval(s);
            && t.totals.dropped + t.counts.dropped == s.totals.dropped + s.counts.dropped
            && t.totals.outOfOrder + t.counts.outOfOrder == s.totals.outOfOrder + s.counts.outOfOrder
            && t.totals.duplicate + t.counts.duplicate == s.totals.duplicate + s.counts.duplicate
            && t.totals.lurch + t.counts.lurch == s.totals.lurch + s.counts.lurch
            && t.counts.recv == t.counts.dropped == t.counts.outOfOrder == t.counts.duplicate == t.counts.lurch == 0
            && t.max == s.max && t.init == s.init && t.processed == s.processed && t.seen == s.seen
  {
  }

  /** What one packet leaves behind, by its expanded number alone: the highest number, the last
      re-base, the numbers processed and those seen on each path. */
  lemma SetsOf(s: Link, wire: int, path: int, authentic: bool)
    requires s.Valid() && 0 <= wire < 0x1_0000 && 0 <= path < 2
    ensures var (t, outcome) := Receive(s, wire, path, authentic, false);
            var e := Expand(wire, s.max);
            var inWindow := s.max / 64 * 64 - 64 <= e <= s.max;
            var late := inWindow && e > s.init && e !in s.processed;
            var taken := authentic && (e > s.max || late);
            var noted := taken || (inWindow && e > s.init && e in s.processed);
            && t.max == (if taken && e > s.max then e else s.max)
            && t.init == (if taken && e - s.max >= 100 then e else s.init)
            && t.processed == s.processed + (if taken then {e} else {})
            && |t.seen| == 2 && t.seen[path] == s.seen[path] + (if noted then {e} else {})
            && t.seen[1 - path] == s.seen[1 - path]
            && outcome == (if taken then Accepted(e) else Rejected)
  {
    hide Expand, Missing;
    var e := Expand(wire, s.max);
    CheckCases(s, wire, path, e);
    CheckKeeps(s, wire, path);
    var (t, n) := Check(s, wire, path);
    if n != 0 && authentic {
      TrackSets(t, n, path);
    }
    hide Check, Track;
  }

  lemma TrackSets(s: Link, n: int, path: int)
    requires s.Valid() && s.Fresh(n) && n > 0 && 0 <= path < 2
    ensures var t := Track(s, n, path);
            && t.max == (if n > s.max then n else s.max) && t.init == (if n - s.max >= 100 then n else s.init)
            && t.processed == s.processed + {n}
            && |t.seen| == 2 && t.seen[path] == s.seen[path] + {n} && t.seen[1 - path] == s.seen[1 - path]
  {
    hide Missing;
    if n - s.max >= 100 {
      UpToAll(s.processed + {n}, n);
      UpToAll(s.seen[path] + {n}, n);
      UpToAll(s.seen[1 - path], n);
    }
  }

  lemma NoAdoption(s: Link, e: Event)
    requires s.Valid() && e.Packet? && e.Possible() && (e.mayInitialize ==> s.max != 0)
    ensures Receive(s, e.wire, e.path, e.authentic, e.mayInitialize) == Receive(s, e.wire, e.path, e.authentic, false)
  {
  }

  lemma Adoption(s: Link, wire: int, path: int, authentic: bool)
    requires s.Valid() && s.max == 0 && 0 <= wire < 0x1_0000 && 0 <= path < 2
    ensures var m := (wire - 1) % 0x1_0000;
            && |s.seen| == 2 && Rebase(s, m).Valid() && Rebase(s, m).max == m && Rebase(s, m).Fresh(m + 1)
            && Receive(s, wire, path, authentic, true) == Receive(Rebase(s, m), wire, path, authentic, false)
  {
    hide Check, Track, Missing;
    FirstRebase(s, (wire - 1) % 0x1_0000);
  }

  lemma NextWire(wire: int)
    requires 0 <= wire < 0x1_0000
    ensures ((wire - 1) % 0x1_0000 + 1) % 0x1_0000 == wire
  {
  }

  /** Where the window adopts the first number, an authentic packet is accepted as the one after
      it. */
  lemma FirstNumberAdopted(s0: Link, events: seq<Event>, k: nat)
    requires s0.Valid() && Possible(events) && k < |events| && events[k].Packet?
    requires events[k].mayInitialize && State(s0, events, k).max == 0
    ensures OutcomeOf(s0, events, k)
         == if events[k].authentic then Accepted((events[k].wire - 1) % 0x1_0000 + 1) else Rejected
  {
    hide State, OutcomeOf, Receive, Rebase, Link.Valid, Link.Fresh;
    var s, e := State(s0, events, k), events[k];
    var m := (e.wire - 1) % 0x1_0000;
    assert e in events && e.Possible();
    RunStep(s0, events, k);
    NextWire(e.wire);
    Adoption(s, e.wire, e.path, e.authentic);
    ReceiveFresh(Rebase(s, m), e.wire, e.path, e.authentic, m + 1);
  }

  // ---------- Losses over a run ----------

  function Slips(s0: Link, events: seq<Event>, k: nat): nat
    requires s0.Valid() && Possible(events) && k <= |events|
  {
    if k == 0 then 0 else Slips(s0, events, k - 1) + Slip(State(s0, events, k - 1), events[k - 1])
  }

  /** The losses reported are the numbers that never arrived and every slip on the way. */
  lemma {:induction false} LossesAndSlips(s0: Link, events: seq<Event>, k: nat)
    requires s0.Valid() && Possible(events) && k <= |events|
    ensures State(s0, events, k).Excess() == s0.Excess() + Slips(s0, events, k)
    decreases k
  {
    hide State, Slip, OutcomeOf, Link.Excess;
    if k == 0 {
      StateAtFirst(s0, events, k);
    } else {
      RunStepKeeps(s0, events, k - 1);
      LossesAndSlips(s0, events, k - 1);
    }
  }

  lemma {:induction false} SlipsAddUp(s0: Link, events: seq<Event>, k: nat)
    requires s0.Valid() && Possible(events) && k <= |events|
    ensures Slips(s0, events, k) == 0 <==> forall i: nat | i < k :: Slip(State(s0, events, i), events[i]) == 0
    decreases k
  {
    hide Slip, State;
    if k > 0 {
      SlipsAddUp(s0, events, k - 1);
    }
  }

  /** From a state with exact losses on, losses are never under-reported, and they stay exact iff
      no packet that was recorded came late to an interval that counted no loss, or skipped 100
      or more numbers while others were still missing. */
  lemma LossesExactly(s0: Link, events: seq<Event>, k: nat)
    requires s0.Valid() && s0.Excess() == 0 && Possible(events) && k <= |events|
    ensures State(s0, events, k).Dropped() >= State(s0, events, k).NeverArrived()
    ensures State(s0, events, k).Dropped() == State(s0, events, k).NeverArrived() <==>
            forall i: nat | i < k && Tracked(State(s0, events, i), events[i]).Some? ::
              var (t, n) := Tracked(State(s0, events, i), events[i]).value;
              && !(n < t.max && t.counts.dropped == 0)
              && !(n - t.max >= 100 && t.NeverArrived() > 0)
  {
    LossesAndSlips(s0, events, k);
    SlipsAddUp(s0, events, k);
    hide State, Tracked, Slips, Missing, Link.Valid;
  }

  /** A late packet is always one that was reported lost, and anomalies never outnumber the
      packets of an interval. */
  lemma AssertsHold(s0: Link, events: seq<Event>, k: nat)
    requires s0.Valid() && Possible(events) && k < |events|
    ensures State(s0, events, k).counts.Weird() <= State(s0, events, k).counts.recv
    ensures var tracked := Tracked(State(s0, events, k), events[k]);
            tracked.Some? && tracked.value.1 < tracked.value.0.max ==>
              tracked.value.0.Dropped() > 0 && tracked.value.1 - tracked.value.0.max >= -128
  {
    var s, e := State(s0, events, k), events[k];
    if Tracked(s, e).Some? {
      var s0 := if e.mayInitialize then MaybeInitialize(s, e.wire) else s;
      if e.mayInitialize && s.max == 0 {
        FirstRebase(s, (e.wire - 1) % 0x1_0000);
      }
      CheckKeeps(s0, e.wire, e.path);
      var (t, n) := Check(s0, e.wire, e.path);
      TrackKeeps(t, n, e.path);
      assert t.Fresh(n);
    }
    hide State, Check, Track, Missing;
  }

  /** A fresh authentic packet within 100 of the maximum, by its true number. */
  lemma RecordNear(s: Link, n: int, path: int)
    requires s.Valid() && s.Fresh(n) && s.max - 0x8000 <= n < s.max + 100 && n > 0 && 0 <= path < 2
    ensures var (t, outcome) := Receive(s, n % 0x1_0000, path, true, false);
            && outcome == Accepted(n) && t.processed == s.processed + {n} && t.init == s.init && t.totals == s.totals
            && t.max == (if n > s.max then n else s.max)
            && t.counts.dropped == (if n > s.max then s.counts.dropped + n - s.max - 1
                                    else if s.counts.dropped > 0 then s.counts.dropped - 1 else 0)
  {
    ExpandRecovers(n, s.max);
    hide Expand, Missing;
    CheckKeeps(s, n % 0x1_0000, path);
    var (t, m) := Check(s, n % 0x1_0000, path);
    assert m == n && t.counts.dropped == s.counts.dropped;
    hide Check;
  }

  /** Packets 1 and 3, an interval that ends, and then packet 2: it counts as late but is not
      taken back, so one loss stays reported although nothing is missing. */
  lemma LateAfterInterval(s0: Link, events: seq<Event>, k: nat)
    requires IsStart(s0) && s0.Valid() && k == 0
    requires events == [Packet(1, 0, true, false), Packet(3, 0, true, false), IntervalEnd(5.0, false),
                        Packet(2, 0, true, false)]
    ensures Possible(events) && State(s0, events, k + 4).Dropped() == 1 && State(s0, events, k + 4).NeverArrived() == 0
  {
    hide State, OutcomeOf, Receive, Missing, Link.Valid;
    assert State(s0, events, k) == s0 by {
      StateAtFirst(s0, events, k);
    }
    RecordNear(State(s0, events, k), 1, 0);
    RunStep(s0, events, k);
    RecordNear(State(s0, events, k + 1), 3, 0);
    RunStep(s0, events, k + 1);
    RunStep(s0, events, k + 2);
    RecordNear(State(s0, events, k + 3), 2, 0);
    RunStep(s0, events, k + 3);
    NothingMissing(State(s0, events, k + 4).processed);
  }

  lemma NothingMissing(done: set<int>)
    requires done == {1, 2, 3}
    ensures Missing(0, 3, done) == 0
  {
    assert Missing(0, 3, done) == Missing(0, 2, done) == Missing(0, 1, done) == Missing(0, 0, done);
  }
}
